# Verification of the lp2p peer library

lp2p keeps a node connected to a peer-to-peer network. This project models the parts of it that decide
something: how addresses become peer ids and buckets, the peer book with its two tiers of bounded
buckets, the connection pool with its limits and its protection against eviction, the random peer
selectors, and the node's event handlers that drive book and pool together. It proves what the library
relies on without saying so, and shows exactly where that fails.

Verify it with `dafny verify dfyconfig.toml`.

## Layout

| module | models | contents |
|---|---|---|
| `Text`, `Address`, `PeerId`, `Quads`, `Bucket`, `Networks`, `Peers` | `src/utils.js` | IPv6 text by the grammar of section 2.2 of RFC 4291 with its 128-bit meaning; normalisation; ids; texts ending in a dotted quad; bucket bytes; networks by their octets and groups |
| `OrderedMap` | JavaScript `Map` | a map with insertion order |
| `Buckets`, `Lists`, `PeerList` | `src/peer_book/peer_list.js`, `new_list.js`, `tried_list.js` | one bucket, the flat map of a bucketed list, and the class that changes buckets in place |
| `Books`, `BookRuns`, `PeerBook` | `src/peer_book/peer_book.js` | the two-tier book as a value, its runs, and the class |
| `Selection`, `Protection`, `Slices` | `src/peer_selection.js`, `src/peer_pool.js` | selectors, the three-stage eviction filter, and whom it protects in terms of the metrics |
| `Pools`, `PoolRuns`, `Populating`, `PeerPool` | `src/peer_pool.js` | the two connection maps, their runs, whom a population connects, and the class |
| `PeerExchange`, `Sanitize` | `src/p2p.js`, `src/validation.js` | the length of a peer-list response; the configured peer lists |
| `Nodes`, `NodeRuns`, `NodeEffects`, `Handshakes`, `Starting`, `KeptOut`, `P2P` | `src/p2p.js` | the handlers as steps on book, pool and banned hosts; whole runs; what each handler, a handshake and the start achieve; which addresses stay out; the class |

Each class (`PeerList`, `PeerBook`, `PeerPool`, `P2P`) has the fields of its JavaScript original and is
proved against functions on values (or, where the original draws at random, relations between values);
the theorems are about those. A call that throws is `None`, or leaves the state as it was. The clock,
`Math.random()` and SHA-256 are parameters about which nothing is assumed (except that a random number
lies in [0, 1), and, where a lemma says so, that the clock does not run backwards); `shuffle` may return
any permutation; the sort is any sorted permutation.

## Main results

1. **Addresses.** Normalising an IPv6 text without a dotted quad gives the canonical text of the very address that
   the text denotes; two texts normalise equally exactly when they denote the same address; normalising is
   idempotent for every text; ids round-trip, are injective on normal forms and do not depend on the spelling of the
   address. With a quad the meaning survives exactly in one family of texts.
2. **The book.** Call a set of addresses coherent when those with the same id select the same bucket. Over every run
   on a set of addresses no id is ever in two buckets or tiers exactly when the set is coherent for both lists. On
   coherent addresses every operation does to one flat map, from id to tier and entry, exactly what a short
   specification (`Books.FlatStep`) says, and at most one peer of the bucket inserted into is evicted; a tried peer's
   counter counts its downgrades, and a peer leaves after exactly the downgrades that its rank says. Normal forms are
   coherent whatever the hash.
3. **The pool.** For any ratios the inbound limit holds over every run exactly when the ratios leave a candidate at
   the limit; for ratios of at most one half the inbound connections stay within max(limit, whitelist + 2). The
   outbound connections to peers that are not fixed stay within their limit. Adding a peer never evicts a whitelisted
   one, nor one of the three protected slices: one with at most k connections of lower or equal latency (higher or
   equal response rate, earlier or equal connect time) among those off the whitelist, where k is the number its stage
   takes out. A population connects the fixed peers and as many of the eligible peers of the book as the limit leaves
   room for.
4. **The node.** A started node knows the seed, whitelisted and previous peers that are not passive, and has tried the
   last two kinds, unless their bucket has to take more of them than it can hold; and it knows nobody else. Every
   handler makes one step of the node, and over every run of such steps the invariants of book and
   pool hold together. An address outside a given set comes from outside into book or pool by a discovery, by a handshake or by a
   population that connects to a fixed peer, and in no other way; the exact conditions follow under which blacklisted
   addresses and banned hosts stay out. A connected peer is tried afterwards, a banned one off the whitelist is gone
   from the book, and no call but one downgrades or removes a whitelisted peer.

## Where the code does less than it seems

Each of these is a theorem that gives the exact condition or the input that fails.

- `normalizeIPv6Address` throws on well-formed texts: it works exactly when there are at most seven colons
  (`Address.NormalizeIPv6Meaning`), that is unless exactly one group is left out at either end
  (`Address.NormalizeThrowsIff`), so `1:2:3:4:5:6:7::` fails (`Address.NormalizeIPv6Throws`).
- A dotted quad that is not folded is read as one hexadecimal group. The text keeps its meaning exactly when
  everything right of the double colon is zero (`Quads.NormalizeKeepsMeaningIff`), and different addresses have one
  id (`Quads.QuadIdCollision`).
- The pattern that folds IPv4-mapped addresses accepts only the lower-case spelling
  (`Address.FoldsExactly`), and it also folds addresses whose first five groups are not zero
  (`Address.FoldMeaning`), which then have the id of the IPv4 address (`Quads.UnmappedFolds`).
- `normalizePeerId` is idempotent exactly on ids with a non-empty group in brackets, or with a non-empty text without
  opening bracket before the first colon (`PeerId.NormalizePeerIdIdempotentIff`, `PeerId.NormalizePeerIdUnstable`).
- The test for private IPv6 addresses looks at two characters of the text: it also takes in the groups fc, fd and fc0
  to fdf, which are not private (`Networks.CanonicalNetwork`).
- An address and its normal form share a bucket for every hash exactly when they are taken for the same kind
  of network (`Bucket.BucketSpellingIff`). A private IPv6 address in upper case is not
  (`Bucket.UpperCasePrivate`), nor is an IPv4-mapped address whose quad is not private
  (`Bucket.FoldedNetworkIff`). Discovered addresses are not normalised, so one id can be stored twice, in two
  buckets or in both tiers; `BookRuns.OnePlaceIff` says exactly when, and `BookRuns.UpperCaseIncoherent` and
  `BookRuns.MappedIncoherent` give the addresses and the hash.
- The blacklist is not normalised, and is compared with the literal text of a discovered address. The listed texts
  never enter (`NodeRuns.BlacklistHolds`), but other spellings of a listed address may. When discovered addresses are
  normalised, all spellings stay out over every run exactly when the list has the normal form of each of its entries
  (`KeptOut.BlacklistHoldsIff`), and the same holds of the configured peers (`Sanitize.SanitizedFormsIff`). Otherwise
  an entry not in normal form bars neither a handshake from its very text (`KeptOut.ListedIsAdmitted`) nor a
  peer configured under it (`Sanitize.ListedPasses`). With the normal forms listed, other spellings enter exactly by
  discovery (`KeptOut.BlacklistedFormsIff`, `KeptOut.BlacklistedSpelling`).
- A ban comes while the peer is still connected. It removes one entry from the book and bars the host from
  connecting, but leaves the host's entries under other ports and its connections, and neither the handlers of
  discoveries, connects and updates nor the population look at the bans. From its ban on a host is out of the book
  exactly when that entry was its only one and is not whitelisted, no discovery brings it in, and no connection still
  open reports it as a peer that the book does not have (`KeptOut.BannedGoneFromBookIff`); once its connections have
  closed it stays out of the pool as well exactly when besides no population finds it among the fixed peers
  (`KeptOut.BannedGoneIff`). A discovery (`KeptOut.BannedComesBack`) and an update of an open connection
  (`KeptOut.BannedReportedBack`) bring it back.
- The handshake of the node with itself removes the entry of the id without a look at the whitelist; it is the only
  one whose calls downgrade or remove a whitelisted peer (`NodeEffects.WhitelistedRemovedIff`). Nor does the whitelist
  protect from eviction: a tried whitelisted peer is lost exactly by that handshake, or when another peer evicts it
  from a full bucket (`NodeEffects.WhitelistedStaysTriedIff`).
- The inbound limit is exceeded by runs that fill the pool with whitelisted peers and others that the ratios protect:
  it holds exactly when there is always a candidate at the limit (`PoolRuns.InboundLimitIff`), for ratios of at most
  one half when it is at least the whitelist plus two, or plus one without latency protection
  (`PoolRuns.ModerateRoomIff`).
- A message to everybody reaches the whole pool exactly when no id is connected both ways
  (`PeerPool.SendToAllReaches`), which a peer is that the node connects to and that connects to the node
  (`PoolRuns.BothWays`).
- A response is never rejected for its length exactly when the receiver's maximum is at least both settings
  of the sender (`PeerExchange.NeverRejectedIff`), as with the defaults (`PeerExchange.DefaultsAccepted`).
- With a bucket size of zero a bucket still holds one peer, and the addition that fills it reports no success
  (`PeerList.FreshAdd`).
- A start tries all whitelisted and previous peers exactly when no bucket of the tried list has to take more of them
  than it can hold (`Starting.AllTriedIff`); those that evict one another are chosen at random.
- `upgradePeer` stores the information it is given and drops what the new list had
  (`BookRuns.EntersTriedAtZero`).
- The comment in `downgradePeer` speaks of both lists informing the caller; the code returns true only when
  the peer leaves the new list (`PeerBook.PeerBook.DowngradePeer`).

## Model

| member | source | states |
|---|---|---|
| Address.ParseRender | src/utils.js:75 | What the IPv6 grammar renders is read back to the same structure, so a text has one meaning |
| Address.RenderParse | src/utils.js:75 | Every accepted text is the rendering of the structure read from it |
| Address.NormalizeIPv6Meaning | src/utils.js:59-71 | On text without a dotted quad normalisation succeeds exactly with at most seven colons, and gives the canonical text of the eight 16-bit groups that the grammar assigns to the text |
| Quads.NormalizeKeepsMeaningIff | src/utils.js:59-71 | For every IPv6 text on which it does not throw, dotted quads included: the result denotes the same address if and only if the text has no quad, or everything right of the double colon is zero |
| Address.NormalizeThrowsIff | src/utils.js:60-62 | It throws on exactly the IPv6 texts that leave out a single group at either end |
| Address.NormalizeIPv6Throws | src/utils.js:61-62 | Seven groups and a leading or trailing double colon: well-formed, yet normalisation throws |
| Address.CanonicalTextStable | src/utils.js:59-71 | Canonical text denotes its own groups and is a fixed point |
| Address.CanonicalGroup | src/utils.js:63-70 | Canonical text is eight groups of one to four lower-case digits without leading zero |
| Address.NormalFormIffSameMeaning | src/utils.js:59-71 | Two texts normalise equally if and only if they denote the same address |
| Address.NormalizeAddressIdempotent | src/utils.js:73-95 | For every text whatsoever, normalising the result again changes nothing |
| Address.NormalizeSupported | src/utils.js:73-95 | On supported addresses it succeeds, gives a normal form, and keeps the meaning |
| Address.FoldsExactly | src/utils.js:38 | A text ending in a quad is folded if and only if the part before the quad is `ffff` in lower case |
| Address.FoldMeaning | src/utils.js:76-82 | The folded quad is that of the last three groups; the text is the IPv4-mapped address of section 2.5.5.2 of RFC 4291 exactly when the first five groups are zero |
| Quads.UnmappedFolds | src/utils.js:76-82 | Texts whose first five groups are not all zero are folded too, and have the id of the IPv4 address |
| Quads.QuadIdCollision | src/utils.js:195-201 | Texts that differ in the last three octets of an unfolded quad denote different addresses and have the same id |
| PeerId.PortGroupMatches | src/utils.js:33 | The port found is that of the one match of the pattern, and none is found if and only if nothing matches |
| PeerId.HostGroupMatches | src/utils.js:32 | The bracketed host found is that of the leftmost match of the pattern, the longest there, and none is found if and only if nothing matches |
| PeerId.PeerIdRoundTrip | src/utils.js:195-218 | Reading a printed id gives the normalised address and the same port, and the id is a fixed point of `normalizePeerId` |
| PeerId.PeerIdOfNormalForm | src/utils.js:195-201 | The id does not depend on the spelling of the address |
| PeerId.PeerIdInjective | src/utils.js:195-201 | On normal forms equal ids mean equal address and port |
| PeerId.HostShape | src/utils.js:203-210 | A host read from any id is a fixed point of normalisation, and is bracket-free and non-empty or colon-free |
| PeerId.NormalizePeerIdIdempotentIff | src/utils.js:220-227 | Normalising an id twice agrees with once if and only if the id has a non-empty group in brackets, or a non-empty text without opening bracket before its first colon |
| PeerId.NormalizePeerIdUnstable | src/utils.js:220-227 | On every unbracketed text starting with a colon the two differ |
| Bucket.IPv6BytesBigEndian | src/utils.js:143-151 | Sixteen bytes, most significant first, of the address denoted |
| Bucket.IPv6BytesInjective | src/utils.js:143-151 | Two spellings give the same bytes if and only if they denote the same address |
| Bucket.SupportedHasBucket | src/utils.js:162-171 | Every supported address has a bucket below the bucket count; the unsupported branch is not reached |
| Bucket.BucketExistsIff | src/utils.js:162-193 | Of IP addresses all but the texts that leave out a single group at either end have a bucket; which other texts have one |
| Bucket.SameBucketIffSameBytes | src/utils.js:186-192 | Two addresses share a bucket under every hash if and only if the bytes hashed are the same; `Networks.BytesAre` says which these are |
| Bucket.BucketSpellingIff | src/utils.js:121-193 | An address and its normal form share a bucket under every hash if and only if they are taken for the same network |
| Bucket.PlainNetworkIff | src/utils.js:97-141 | For plain IPv6 text that is so if and only if it is the loopback address or the two-character test agrees on both spellings |
| Bucket.PlainNetworkSame | src/utils.js:97-141 | A first group in lower case without leading zeros (or left out) suffices |
| Bucket.FoldedNetworkIff | src/utils.js:97-141 | For a text folded to a quad the network is that of the quad if and only if both pass for private |
| Bucket.UpperCasePrivate | src/utils.js:107-109 | An `FC00` address is classified as public, its normal form as private |
| Bucket.UpperCaseNormalForm | src/utils.js:162-193 | So the two spellings are hashed from different bytes under every secret |
| Networks.IPv4TextIff | src/utils.js:97-141 | The IPv4 addresses are exactly the texts of four bytes in decimal without leading zeros |
| Networks.QuadRead | src/utils.js:153-160 | Of such a text the four bytes are read, in their order, and the two groups that an IPv6 text ending in it has |
| Networks.QuadNetwork | src/utils.js:97-141 | 0.x and 127.x are local, 10.x and 172.16 to 172.31 private, all other quads public |
| Networks.PlainLocalIff | src/utils.js:111-119 | A plain IPv6 text is local if and only if it denotes the loopback address, in any spelling |
| Networks.CanonicalNetwork | src/utils.js:97-141 | The network of an address in normal form by its first group, the groups that the two-character test takes for private named |
| Networks.BytesAre | src/utils.js:162-193 | Hashed are the secret, a byte for the network and, of public addresses only, the four or sixteen bytes of the address |
| Networks.UInt32BigEndian | src/utils.js:166-167 | The secret comes most significant byte first, and is recovered from its bytes below 2^32 |
| Networks.BucketIsRemainder | src/utils.js:186-192 | The bucket is what is left of the hash of these bytes when divided by the number of buckets |
| Networks.SecretMatters | src/utils.js:162-193 | Different 32-bit secrets hash different bytes |
| Networks.IPv4SameBucketIff | src/utils.js:162-193 | Two public IPv4 addresses share a bucket under every hash if and only if they are equal |
| Networks.IPv6SameBucketIff | src/utils.js:162-193 | Two public IPv6 texts do if and only if they denote the same address |
| Networks.GroupedNetworks | src/utils.js:172-181 | All local addresses share one bucket, as all private ones do |
| Peers.MergeIs | src/peer_book/peer_list.js:78-81 | Merged information has all that the later one says, and the properties that only the earlier one has |
| OrderedMap.SetSpec | src/peer_book/peer_list.js:83 | Setting a key of an insertion-ordered map: the map updated there, every key in its place, a new key last |
| Buckets.BucketAddSpec | src/peer_book/peer_list.js:137-160 | One bucket after an addition: at most one key evicted, the new key last, nothing else changed |
| Buckets.BucketUpdateSpec | src/peer_book/peer_list.js:73-83 | An update merges information into the named entry only, and changes neither positions nor dates; `Peers.MergeIs` says what merging is |
| Buckets.BucketFailSpec | src/peer_book/tried_list.js:76-100 | A failed connection drops the entry or counts once, as the list's kind says |
| Buckets.ScanFindsOldest | src/peer_book/new_list.js:72-84 | With dates in order the scan evicts the oldest entry if any has reached the threshold, otherwise the one at the random position |
| Buckets.ExpiredIff | src/peer_book/new_list.js:72-78 | An entry has reached the threshold if and only if its date and the time are at least so far apart, either way |
| Buckets.RandomIndexIs | src/peer_book/peer_list.js:181-189 | The random position is the size times the random number, rounded down, and is one of the bucket |
| Buckets.DatesKept | src/peer_book/new_list.js:66-85 | Additions, updates, failures and removals keep dates in order under a clock that does not run backwards |
| Lists.FindIsFlat | src/peer_book/peer_list.js:102-113 | Lookup in the computed bucket agrees with the flat map of all buckets |
| Lists.AddedFlat | src/peer_book/peer_list.js:123-168 | Adding to the list is adding to the flat map, less at most one victim |
| Lists.UpdatedFlat | src/peer_book/peer_list.js:65-86 | Updating merges the given information into that of the named id and changes nothing else |
| Lists.RemovedFlat | src/peer_book/peer_list.js:88-100 | Removing drops the named id from the flat map and nothing else |
| Lists.FailedFlat | src/peer_book/tried_list.js:68-101 | A failed connection drops the id or counts, in the flat map |
| Lists.VictimStored | src/peer_book/peer_list.js:148-159 | A victim is another stored peer of the same, full bucket |
| Lists.NormalCoherent | src/peer_book/peer_list.js:56-63 | Normal forms with the same id select the same bucket, whatever the hash |
| Lists.AllInfosSpec | src/peer_book/peer_list.js:44-54 | `peersList` shows each stored peer once: as many as there are ids, no id twice, at most bucket count times capacity |
| PeerList.FreshAdd | src/peer_book/peer_list.js:123-168 | A fresh id is always added; exactly one stored peer is evicted and reported when the bucket holds as many as it can, none otherwise, and the size follows; success is reported if and only if the bucket size is at least one or the bucket is not empty |
| PeerList.PresentAdd | src/peer_book/peer_list.js:123-135 | A present id is not added again: nothing changes, and neither success nor an addition is reported |
| PeerList.PeerList.constructor | src/peer_book/peer_list.js:19-42 | A valid list of empty buckets, zero settings replaced by the defaults |
| PeerList.PeerList.PeersList | src/peer_book/peer_list.js:44-54 | The nested loops compute the sequence that `AllInfosSpec` describes |
| PeerList.PeerList.GetPeer | src/peer_book/peer_list.js:102-113 | The result of lookup |
| PeerList.PeerList.UpdatePeer | src/peer_book/peer_list.js:65-86 | The new buckets and whether the peer was there; validity kept |
| PeerList.PeerList.RemovePeer | src/peer_book/peer_list.js:88-100 | The new buckets and whether the peer was there; validity kept |
| PeerList.PeerList.AddPeer | src/peer_book/peer_list.js:123-168 | The new buckets and the outcome reported; validity, with bucket sizes, kept |
| PeerList.PeerList.EvictPeerFromBucket | src/peer_book/new_list.js:48-63 | Exactly the entry chosen by the list's kind goes and is returned, none from an empty bucket |
| PeerList.PeerList.EvictPeerBasedOnTime | src/peer_book/new_list.js:66-85 | The scanning loop removes the first entry past the threshold, or nothing |
| PeerList.PeerList.EvictRandomlyFromBucket | src/peer_book/peer_list.js:181-194 | Exactly the entry at the random position goes |
| PeerList.PeerList.FailedConnectionAction | src/peer_book/tried_list.js:68-101 | The new buckets and whether the entry was dropped, for both kinds of list |
| Books.StepRefines | src/peer_book/peer_book.js:66-151 | On coherent addresses every operation keeps the invariant (no id in two tiers or buckets, each entry where its own address and port say) and refines one step of the flat map; a victim comes from the full bucket inserted into |
| Books.FindInView | src/peer_book/peer_book.js:66-73 | Lookup in both tiers agrees with the flat map |
| BookRuns.RunStaysTidy | src/peer_book/peer_book.js:66-151 | The invariant holds over every run on coherent addresses |
| BookRuns.StepFrame | src/peer_book/peer_book.js:66-151 | A step leaves alone every peer but the named and the evicted one |
| BookRuns.AllPeersSpec | src/peer_book/peer_book.js:54-64 | `getAllPeers` shows the peers of the flat map, each once, within the capacity of both lists |
| BookRuns.OnePlaceIff | src/peer_book/peer_book.js:66-151 | For any set of addresses: over every run on it from the empty book no id is in two buckets or tiers, if and only if addresses of the set with the same id select the same bucket in both lists |
| BookRuns.SpellingCoherentIff | src/peer_book/peer_list.js:123-135 | An address and its normal form select the same bucket under every hash if and only if they are taken for the same network |
| BookRuns.UpperCaseIncoherent | src/peer_book/peer_list.js:123-135 | For a suitable hash an `FC00` address and its normal form have one id and two buckets, so no set with both is coherent |
| BookRuns.MappedIncoherent | src/peer_book/peer_list.js:123-135 | The same for an IPv4-mapped address and its quad, if the quad is not private |
| BookRuns.CounterCountsDowngrades | src/peer_book/tried_list.js:81-98 | Throughout a stay in the tried list the counter grows by exactly the number of downgrades and stays below the limit; updates and upgrades never reset it |
| BookRuns.EntersTriedAtZero | src/peer_book/peer_book.js:117-130 | A peer becomes tried only by an upgrade of a new peer, with counter zero and the information given |
| BookRuns.RankAfterRun | src/peer_book/peer_book.js:136-151 | The rank of a peer falls by exactly one per downgrade unless it is evicted, and never below zero |
| BookRuns.DowngradeLife | src/peer_book/peer_book.js:136-151 | A tried peer with f failures under a limit of m: tried for fewer than m - f downgrades, new after exactly m - f, gone after one more |
| BookRuns.RunDates | src/peer_book/new_list.js:66-85 | Over every run under a clock that does not run backwards the buckets of the new list are in the order of their dates |
| BookRuns.EvictsOldest | src/peer_book/new_list.js:48-85 | After every such run a full bucket evicts its oldest peer if that has been there for the threshold time, otherwise the peer at the random position |
| BookRuns.TriedEvictsAtRandom | src/peer_book/peer_list.js:181-194 | A full bucket of the tried list evicts the peer at the random position |
| PeerBook.PeerBook.constructor | src/peer_book/peer_book.js:27-52 | Two valid empty lists of the right kinds |
| PeerBook.PeerBook.GetAllPeers | src/peer_book/peer_book.js:62-64 | New peers, then tried peers |
| PeerBook.PeerBook.GetPeer | src/peer_book/peer_book.js:66-73 | Lookup, tried list first |
| PeerBook.PeerBook.UpdatePeer | src/peer_book/peer_book.js:75-85 | The specified new state, and whether the peer was found |
| PeerBook.PeerBook.AddPeer | src/peer_book/peer_book.js:88-102 | The specified new state and reported outcome |
| PeerBook.PeerBook.RemovePeer | src/peer_book/peer_book.js:104-114 | The specified new state, and whether the peer was found |
| PeerBook.PeerBook.UpgradePeer | src/peer_book/peer_book.js:117-130 | The specified new state, and true exactly for a known peer |
| PeerBook.PeerBook.DowngradePeer | src/peer_book/peer_book.js:136-151 | The specified new state, and true exactly for a peer of the new list |
| Selection.SelectPeersForSend | src/peer_selection.js:50-82 | For a limit that is not negative: min(limit, total) connections, none twice, of which min(shorter, h) are of the rarer kind, h with 2h - 1 <= limit <= 2h; all of them when the limit reaches the total |
| Selection.SelectPeersForConnection | src/peer_selection.js:84-130 | For every sequence of draws exactly min(max(limit, 0), tried + new) peers, a sub-multiset of the two inputs; below the total, pick i is a tried peer if and only if one is left and draw i is below the share of the tried peers (at least one half), or no new one is left |
| Selection.GetUniquePeersByIp | src/peer_selection.js:18-33 | One peer for each address, the highest and the earliest of equals, in the order in which the addresses first occur |
| Selection.HighestSpec | src/peer_selection.js:18-33 | The same of the map that the loop builds |
| Selection.UniqueIdempotent | src/peer_selection.js:18-33 | Selecting from a selection gives the selection |
| Protection.SortByCategory | src/peer_pool.js:76-79 | A permutation, weakly ordered by the category; `Slices.SortedMeans` says so of the metrics |
| Protection.FilterPeersByCategory | src/peer_pool.js:68-81 | Takes out ceil(n * p) peers, each no worse than every peer left; outside [0, 1] nothing |
| Protection.SelectPeersForEviction | src/peer_pool.js:553-596 | The three stages with their early returns and switched-off ratios |
| Protection.CandidatesSize | src/peer_pool.js:553-596 | The candidates are a sub-multiset of the peers given, and their number follows from the ratios alone |
| Protection.CandidatesExist | src/peer_pool.js:553-596 | With ratios of at most one half there is a candidate if and only if there are two peers, or one without latency protection |
| Protection.CandidatesAvailable | src/peer_pool.js:553-596 | The three stages always have a possible outcome |
| Protection.TopSliceProtected | src/peer_pool.js:68-81 | A peer that ranks within the top ceil(n * p) on the metric of a stage does not survive the stage |
| Protection.ProtectedNeverCandidate | src/peer_pool.js:553-596 | A peer that ranks in the top slice of any of the three stages is never a candidate |
| Slices.SortedMeans | src/peer_pool.js:74-80 | Ascending sorts put lower latency and earlier connect time first, descending ones higher response rate |
| Slices.LowLatencyNoCandidate | src/peer_pool.js:553-568 | If at most k positions hold a latency no higher than that of a peer, where k - 1 < n * ratio <= k, the peer is no candidate |
| Slices.HighResponseRateNoCandidate | src/peer_pool.js:570-580 | Nor if at most k hold a response rate no lower, k taken of the number that the first stage leaves |
| Slices.EarlyConnectNoCandidate | src/peer_pool.js:582-592 | Nor if at most k hold a connect time no later, k taken of the number that the first two leave |
| Slices.LowLatencyStays | src/peer_pool.js:365-393 | So adding a peer costs no connected one off the whitelist its place that ranks so by latency among those off the whitelist, |
| Slices.HighResponseRateStays | src/peer_pool.js:365-393 | or by response rate, |
| Slices.EarlyConnectStays | src/peer_pool.js:365-393 | or by connect time |
| PoolRuns.EvictionMakesRoom | src/peer_pool.js:619-629 | Exactly one entry goes if the ratios leave a candidate among the peers off the whitelist, otherwise none; a whitelisted one never goes |
| PoolRuns.ProtectedStays | src/peer_pool.js:365-393 | Adding a peer never costs a connected one its entry that is whitelisted or in a protected slice |
| PoolRuns.TriggersBound | src/peer_pool.js:308-363 | Afterwards every fixed peer is connected, nobody is disconnected, and connections to other peers stay within the larger of their former number and the limit |
| Populating.DisconnectedCount | src/peer_pool.js:310-324 | The filter keeps exactly the peers without connection whose address is that of no fixed peer, each as often as it was given |
| Populating.PopulationConnects | src/peer_pool.js:308-363 | Connected are afterwards exactly those that were, unchanged, the fixed peers, and a selection of the eligible peers of both lists, of size min(limit - connections, eligible); each new one with latency and response rate zero and the present as its connect time |
| Populating.PopulationReachesAll | src/peer_pool.js:308-363 | With room for all, every eligible peer of both lists is connected |
| Populating.UnlistedPeers | src/peer_pool.js:553-560 | The filter for the whitelist and for the fixed peers keeps exactly the others, each as often as it was given |
| PoolRuns.ShuffleKeepsFixed | src/peer_pool.js:604-618 | The periodic outbound eviction drops exactly one peer if there is any that is not fixed, and never a fixed one |
| PoolRuns.RunWithinLimits | src/peer_pool.js:308-410 | For any ratios, over every run of additions, closes, evictions, updates and population: inbound within any bound on the limits at which there is always a candidate; unfixed outbound at most its limit, outbound at most that plus the fixed peers |
| PoolRuns.ModerateRunWithinLimits | src/peer_pool.js:308-410 | For ratios of at most one half: inbound at most max(limit, whitelist + 2), with 1 for 2 without latency protection |
| PoolRuns.InboundLimitIff | src/peer_pool.js:365-393 | For any ratios: the inbound limit holds over every run from an empty pool if and only if a full pool always has a candidate, however many of its peers are whitelisted |
| PoolRuns.ModerateRoomIff | src/peer_pool.js:365-393 | For ratios of at most one half that is so if and only if the limit is at least the whitelist plus two, or plus one without latency protection |
| PoolRuns.Overfull | src/peer_pool.js:372-386 | The run that exceeds the limit where there is no candidate |
| PoolRuns.BothWays | src/peer_pool.js:308-410 | A run after which one id is in both maps |
| PeerPool.PeerPool.constructor | src/peer_pool.js:84-100 | An empty pool of one module |
| PeerPool.PeerPool.AddInboundPeer | src/peer_pool.js:365-393 | Evicts when full, then adds; refused only if the id was there before |
| PeerPool.PeerPool.AddOutboundPeer | src/peer_pool.js:395-410 | Returns the connection of the id, an existing one unchanged |
| PeerPool.PeerPool.EvictInboundPeer | src/peer_pool.js:619-629 | At most one entry goes, chosen from the candidates among peers off the whitelist |
| PeerPool.PeerPool.EvictOutboundPeer | src/peer_pool.js:604-618 | At most one entry goes, none of a fixed peer |
| PeerPool.PeerPool.RemoveInboundPeer | src/peer_pool.js:512-522 | Exactly the named entry goes, and whether it was there |
| PeerPool.PeerPool.RemoveOutboundPeer | src/peer_pool.js:500-510 | Exactly the named entry goes, and whether it was there |
| PeerPool.PeerPool.TriggerNewConnections | src/peer_pool.js:308-363 | Refines the relation that `TriggersBound` and `Populating.PopulationConnects` are about |
| PeerPool.PeerPool.Send | src/peer_pool.js:252-306 | Every selected connection resolves to an entry; min(limit, total) are selected, all of them with limit -1 |
| PeerPool.SendToAllReaches | src/peer_pool.js:252-306 | Limit -1 reaches every outbound entry, and an inbound one exactly when its id is not also outbound |
| PeerExchange.ResponseBounds | src/p2p.js:743-769 | For every draw the response has between min(T, n) and min(n, max(R, T)) peers, also where the lower count exceeds the upper |
| PeerExchange.FullResponse | src/p2p.js:755-765 | From four times the response length on the response is as long as the larger of response length and min(threshold, known), whatever is drawn |
| PeerExchange.ResponseIs | src/p2p.js:755-769 | The length for every draw: from a quarter of the known peers rounded up to half of them rounded down, both cut at the response length, at the position drawn; raised to the threshold and cut at the known peers |
| PeerExchange.NeverRejectedIff | src/validation.js:129-132 | The receiver never rejects the length if and only if its maximum is at least both settings of the sender |
| PeerExchange.DefaultsAccepted | src/p2p.js:744-750 | With default settings a node names all peers it knows, or 100 of them, whatever is drawn; with default settings on both sides nothing is rejected |
| Sanitize.SanitizedLists | src/validation.js:212-277 | No listed text is left as an address, no whitelisted peer is also fixed or seed, and every address is a fixed point of normalisation |
| Sanitize.SanitizedFormsIff | src/validation.js:213-277 | Whatever is configured, no peer is kept whose address is a spelling of a listed one, if and only if the blacklist has the normal form of each of its entries |
| Sanitize.ListedPasses | src/validation.js:215-223 | Otherwise a seed peer configured under the very text of an entry is kept |
| Sanitize.WhitelistedKeptIff | src/validation.js:235-259 | A configured whitelisted peer survives if and only if its normalised address is not blacklisted and no configured fixed or seed peer with an address that is not blacklisted has its id |
| Sanitize.OthersKeptIff | src/validation.js:213-269 | Exactly the seed, fixed and previous peers whose normalised address is not blacklisted survive, each in its list and under that address, else as configured |
| Sanitize.SupportedLists | src/validation.js:204-210 | Supported addresses never make it throw and come out in normal form |
| Nodes.AdmittedIsAdded | src/p2p.js:609-663 | The id checked from the raw remote address is the id of the peer added, which is then in the pool: the error for a peer already there is never reached |
| NodeRuns.StepKeepsAddresses | src/p2p.js:178-327 | Whatever holds of all addresses of book and pool still holds after any step that lets no other address in from outside |
| NodeRuns.RunAddressesIff | src/p2p.js:178-327 | For any set that does not tell apart peers with one id, and handshakes whose raw and normalised address have one id: all addresses of book and pool are in it over a whole run if and only if they are at the start and no discovery, handshake or population lets in another |
| NodeRuns.EntersShows | src/p2p.js:178-327 | Whatever one of the three lets in is in book or pool afterwards |
| NodeRuns.ConsistentIds | src/p2p.js:609-627 | Real remote addresses, and fixed points of normalisation, have the id of their normal form |
| NodeRuns.BlacklistHolds | src/p2p.js:178-327 | From the sanitised lists on, no run puts a listed text into book or pool as an address |
| NodeRuns.InitialTidy | src/p2p.js:128-153 | A node configured with supported addresses starts as one flat map, for any coherent set with all normal forms |
| NodeRuns.InitialNormal | src/p2p.js:128-153 | In particular for the normal forms alone |
| Starting.StartedBook | src/p2p.js:420-815 | A started node knows only the active seed, whitelisted and previous peers left by the sanitising, has tried only the last two kinds, and holds all with no failures and the date of the start; it knows each of them for which the buckets have room, and has tried it if and only if it is of these kinds |
| Starting.AllTriedIff | src/p2p.js:420-815 | With room in the new list, all active whitelisted and previous peers are tried if and only if in no bucket of the tried list there belong more of them than it holds |
| NodeRuns.RunKeepsTidy | src/p2p.js:178-327 | Over every run whose discovered addresses are in a coherent set, the book stays one flat map and the pool in order |
| NodeRuns.NodeWithinLimits | src/p2p.js:539-719 | The limits of the pool hold over every run of the node |
| NodeEffects.ConnectedIsTried | src/p2p.js:178-192 | After a connection a known or active peer is tried |
| NodeEffects.UpdatedIsTried | src/p2p.js:229-247 | So it is after an update of its information |
| NodeEffects.UpdateSets | src/peer_book/peer_list.js:65-86 | An update sets address, port, flag, height and properties of the named peer, and leaves its tier, counter and date and all other peers as they are |
| NodeEffects.UpdateReported | src/p2p.js:229-247 | After a report a tried peer has what was reported, under the stored address and port, and with its counter; a new or unknown active one enters the tried list with exactly that; an unknown passive one is not added |
| NodeEffects.ConnectReported | src/p2p.js:178-192 | After a connection a tried peer is as it was; a new or unknown active one enters the tried list with exactly what was reported; an unknown passive one is not added |
| NodeEffects.DiscoveredIsKnown | src/p2p.js:300-327 | A discovered active peer is known afterwards; one known before changes nothing, another enters as new |
| NodeEffects.AbortLowersRank | src/p2p.js:201-208 | An aborted connection costs exactly one step of rank, none for a whitelisted peer |
| NodeEffects.WhitelistedRemovedIff | src/p2p.js:201-287 | A step makes a call that downgrades or removes a whitelisted peer if and only if it is the handshake of the node with itself under that id |
| NodeEffects.SelfConnectionPossible | src/p2p.js:564-585 | Such a handshake can come under any id whose address is not blacklisted |
| NodeEffects.WhitelistedStaysTriedIff | src/p2p.js:178-327 | A whitelisted tried peer stays tried, counter included, if and only if the step is not such a handshake and evicts it from no full bucket |
| NodeEffects.PopulationReachesBook | src/p2p.js:703-719 | With room for the whole book a population connects every peer of it except under the address of a fixed one, and every fixed peer |
| Handshakes.AdmitIff | src/p2p.js:540-651 | A handshake is admitted if and only if its normalised address is neither blacklisted nor banned, it has a url, a foreign nonce and a valid query, is compatible, and its id has no inbound connection |
| Handshakes.HandshakeConnects | src/p2p.js:609-663 | Exactly then it connects the peer, with no metrics yet; else the pool stays as it is |
| Handshakes.HandshakeInBook | src/p2p.js:564-671 | The node's own handshake removes the id from the book, one against which nothing stands adds an unknown active peer, any other changes nothing |
| Handshakes.UnbannedIsWelcome | src/p2p.js:292-297 | An unban lifts the ban of exactly the host of the id, after which a handshake from any spelling of its address is admitted if nothing else stands against it |
| Handshakes.BannedHostOnly | src/p2p.js:272-290 | A ban adds exactly the host of the id |
| Handshakes.DiscoveryInBook | src/p2p.js:300-327 | A discovered peer enters as a new one if and only if it is neither known nor passive nor blacklisted as written; else the book stays as it is |
| KeptOut.BlacklistHoldsIff | src/p2p.js:300-327 | Over every run with normalised discoveries every spelling of a listed address stays out of book and pool, if and only if the blacklist has the normal form of each of its entries |
| KeptOut.BlacklistedFormsIff | src/p2p.js:300-327 | With those forms listed, every spelling stays out over a run if and only if no discovery brings one in |
| KeptOut.FixedDiscoveriesSafe | src/p2p.js:300-327 | Normalised discoveries bring in none |
| KeptOut.ListedIsAdmitted | src/p2p.js:540-651 | A handshake from any spelling of an entry whose normal form is not listed, its own text included, is admitted |
| KeptOut.ListedConnects | src/p2p.js:540-663 | The run in which such a peer connects |
| KeptOut.BlacklistedSpelling | src/p2p.js:301-306 | An `FC00` spelling of a listed private address is let in by discovery, with the id of the listed address |
| KeptOut.BannedAbsentIff | src/p2p.js:272-327 | A banned host is in neither book nor pool over a run that does not unban it, if and only if it is not at the start, no discovery brings it in and no population finds it among the fixed peers; then no connection can report it |
| KeptOut.RunBookIff | src/p2p.js:178-327 | For any set that does not tell apart addresses with one id, and whatever the pool holds: all addresses of the book are in it over a whole run if and only if they are at the start and no call adds another |
| KeptOut.BannedGoneFromBookIff | src/p2p.js:178-327 | From its ban on, while it is connected or not, the host is out of the book over a run that does not unban it, if and only if the banned entry was its only one and is not whitelisted, no discovery lets it in, and no connect or update of an open connection adds it |
| KeptOut.BannedGoneIff | src/p2p.js:272-290 | When the host has no connection any more in state j, it is moreover out of the pool from j on, if and only if besides no population from j on finds it among the fixed peers |
| KeptOut.BannedReportedBack | src/p2p.js:229-247 | The step in which an open connection of the banned host reports an update, after which the unknown host is in the tried list |
| KeptOut.BannedIsRemoved | src/p2p.js:272-287 | A ban removes exactly the banned id from the book, nothing if it is whitelisted, leaves the pool, and bans the host |
| KeptOut.BannedNotAdmitted | src/p2p.js:614-622 | From the ban on no spelling of the address passes the checks, over every run without an unban of it |
| KeptOut.BannedComesBack | src/p2p.js:306-321 | A discovery of a banned host that is not blacklisted enters an empty book |
| P2P.P2P.constructor | src/p2p.js:128-434 | Empty book with the default lists, empty pool, nobody banned, the module count of the node info |
| P2P.DefaultCapacity | src/peer_book/peer_book.js:16-52 | The default lists have 128 buckets of 32 new and 64 buckets of 32 tried peers, a day as threshold and three tries; over no run does the book hold more than 6144 peers |
| P2P.P2P.HandleOutboundPeerConnect | src/p2p.js:178-192 | Makes the step of the node that the run theorems are about, and the peer is tried afterwards; pool and bans unchanged |
| P2P.P2P.HandleOutboundPeerConnectAbort | src/p2p.js:201-208 | Makes the step of an aborted connection |
| P2P.P2P.HandlePeerInfoUpdate | src/p2p.js:229-247 | Makes the step of an update that `NodeEffects.UpdateReported` is about, and the peer is tried afterwards |
| P2P.P2P.HandleDiscoveredPeer | src/p2p.js:300-327 | Makes the step of a discovery, and an active peer that is not blacklisted is known afterwards |
| P2P.P2P.HandleBanPeer | src/p2p.js:272-287 | Makes the step of a ban |
| P2P.P2P.HandleUnbanPeer | src/p2p.js:292-294 | Makes the step of an unban |
| P2P.P2P.HandleInboundConnection | src/p2p.js:539-671 | The checks in their order decide as specified; exactly an admitted peer is added, and is then in the pool under the id that was checked; book and pool make the inbound step of the node |
| P2P.P2P.Populate | src/p2p.js:703-719 | Makes the population step from what the book holds |
| P2P.P2P.HandleGetPeersRequest | src/p2p.js:743-769 | Different positions of the known peers, as many as `ResponseBounds` is about, zero settings replaced by the defaults |
| P2P.P2P.AddPreviousPeers | src/p2p.js:420-431 | The loop makes the calls for the previous peers in order |
| P2P.P2P.AddKnownPeers | src/p2p.js:804-811 | The loop makes the calls for the seed and whitelisted peers in order, those that `Starting.StartedBook` is about |
| P2P.P2P.UpgradePeers | src/p2p.js:813-815 | The loop upgrades the whitelisted peers in order |
| P2P.P2P.Start | src/p2p.js:804-815 | Both loops of `start`, which after those of the constructor leave the book of `Starting.StartedBook` |
| P2P.StartedNode | src/p2p.js:128-815 | Constructing and starting from the configured lists gives the sanitised initial state that the run theorems and `Starting.StartedBook` start from, unless a configured address has no normal form or no bucket |

## Left out

- Zone ids (`fe80::1%eth0`): not part of the grammar.
- Address.NormalizeIPv6Meaning: says nothing of text with a dotted quad; `Quads.NormalizeKeepsMeaningIff` does.
- Books.StepRefines: asks for coherent addresses; by `BookRuns.OnePlaceIff` on any other set an id gets into two places.
- NodeRuns.RunKeepsTidy: asks for coherent discovered addresses, for the same reason; `NodeRuns.BlacklistHolds` does not.
- NodeRuns.RunAddressesIff: asks for a set that does not tell apart peers with one id, as the id is all that the pool compares, and for handshakes that let in another address from remote addresses with the id of their normal form, as all supported ones are.
- KeptOut.BannedAbsentIff: like `KeptOut.BannedGoneIff` takes the fixed peers to be configured with supported addresses.
- Selection.SelectPeersForSend: for a negative limit only that nothing is selected twice; the library passes none but -1, which `send` replaces.
- PeerList.PeerList.constructor: asks for at least one bucket; without any every lookup misses and every addition is refused.
- P2P.P2P.HandleInboundConnection: takes the remote address to be a supported one, and the steps of one handshake to be atomic; the tick waited before the node's own entry is removed is left out.
- SHA-256 and its first four bytes are one arbitrary function to natural numbers; nothing is said of distribution.
- Blanks, signs and the `0x` prefix of `parseInt`: they do not occur in accepted address text; in ids the model reads digits only. A port that is not a number is absent, not NaN.
- Ports are natural numbers; handshakes with a port that does not parse are left out, as are two-byte bounds on ports.
- Rounding of ratios, latencies and rates in floating point: they are real numbers.
- The sort works on a sequence value; that `sort` reorders the caller's array is not seen, as the array is a copy made for the call.
- Peers of the pool are values in its two maps; sockets, the opening of connections, and their state are left out. Changes of metrics and information are one step that keeps id, address and port.
- A peer's information always has `isPassive` and `height`; all other properties are an uninterpreted map of texts.
- The two list classes and their base are one class with a kind; the second initialisation in the constructor of the tried list repeats the first.
- Productivity and response rate: an opaque sort key, since the periodic reset can overlap requests under way.
- `applyPenalty`, reputation and the timers that end a ban: bans and unbans come as events of any order, and so do the closes of connections that go with a ban.
- `isPrivate` is modelled as written and not claimed to follow RFC 1918 or RFC 4193.
- `selectPeersForRequest`, `request`, and selection functions supplied by the user: a shuffled prefix, and unknown code.
- Version and port validation, compatibility checks, byte sizes of messages, status codes and error texts: outcomes of checks are inputs of the handshake.
- `removeAllPeers`, `stop`, the HTTP server, event re-emission and handler binding: input and output only.
