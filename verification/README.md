# Verified model of the framework's base layer

This project models the base layer of the component framework in Dafny and proves what its algorithms
promise: the zone allocator, the chained hash map, the multi-column linked list with the object pool,
the buffer map and the connection scheduler built on it, the handle-based re-entrant lock, the glob
matcher, the overlapping copy, number printing, the message digest, the percent codec and the JSON
parser. The code under each heading is imperative where the original is: classes whose methods update
their fields, arrays changed in place, loops with invariants. Each method is proved against a
specification on plain values, and the lemmas say what that specification means.

Run `dafny verify dfyconfig.toml` to check everything.

## The parts

**Zone allocator** (`ZoneSizes`, `ZoneBitmap`, `ZoneLayout`, `ZoneSteps`, `ZoneStates`, `ZoneChains`,
`ZoneSearch`, `ZoneFit`, `ZoneAllocator`, `ZoneRuns`, `ZoneDestroy`). Memory is a map from addresses to header pages,
because the pages are raw memory and link each other by address. The page allocator is a script of answers; an
answer counts only when it is a range of its own, from address 4096 up, and everything is proved for
every script. Once the script is over it finds room for every request. Bitmap words are 64-bit vectors and the bit tests are the original ones. The main result
is that the allocator is a map from block starts to sizes: `Alloc` adds one entry of the least size
class, or nothing exactly when the page allocator refused; `Free` removes exactly the block that holds
the address, exactly when `Verify` accepts it; live blocks share no byte and lie in owned ranges; no
page is lost while the context is in use. `ZoneRuns.Run` states this over any sequence of requests.
Which place serves a request is proved too: the first free place of the first entry with room on the first
header page of the chain with room. Entries get their pages in order, so a small request asks for no page, and
cannot fail, as long as an entry of that header page that has its page also has a free place.
That destroying the context gives every page back is false: the entry index is reset once for a chain and
not for each of its header pages, so the data of later header pages is forgotten. `LostPages` says exactly
which ranges stay behind, and `AllGoesBackExactly` when there are none. `TooManyForOnePage` gives a
condition that can be checked by counting: as soon as more blocks of one size are live than a header page
has places for, destroying loses pages. `LoseOne` is such a run. Each call of the page deallocator is proved
to name a range that is out, with its own number of pages.

**Hash map** (`HashChains`, `HashTable`, `HashMap`, `HashRuns`). The bucket table stands for a plain map from 20-byte
digests to data. The digest function is a parameter; the index computed from a digest is a polynomial in its
bytes, wrapped once. The table grows exactly when the records reach its capacity and memory is granted. The rehash to 2c+1 buckets changes no lookup, and an
enumeration hands out the entries of the plain map, each once. `HashRuns.Run` says of every sequence of calls,
whatever memory is refused on the way, that it is one of the plain map with the same answers. An
empty key is never looked up, so `Add` and `Set` with an empty key behave differently from other keys,
and the contracts say how.

**Linked list** (`LinkList`, `ListRuns`) with its clients (`ObjectPool`, `BufferMap`, `HttpScheduler`). Every column is
a well-formed doubly linked list that stands for a sequence. The cached cursor is modelled with its
32-bit index. `Get` walks to the right record exactly when the cursor agrees with the sequence (or is
out of range and already stands on the record); `Sel` and `Mov` can leave it behind, and the exact
conditions are proved. In a history without these two every cursor agrees: `ListRuns.Run` proves that the list
is then plain sequences with a position each. The clients work on the contracts of the list only. `BufferMap.Run` says of every
sequence of calls that, between any two of them, a buffer leaves the dirty column only after it was written,
read again or given up. `HttpScheduler.Run` says of every order of calls by any workers that
`get_connection` returns the pending records in turn, so that a record that stands at place k is returned by
the (k+1)-th call from there on, and that no two workers ever have the same record. In the scheduler a
release keeps the state word of the record, so the state word says less than the column; `OneColumn`
states what does hold.

**Lock** (`ReentrantLock`, `LockHandles`, `MutexCalls`, `LockProgress`). A step machine in which every read and write of a shared field
is a step of its own, for any number of threads and every interleaving. Mutual exclusion, the counter, and the
release at the matching unlock are invariants of every run. In every run the handles of two acquisitions fewer
than 2^32 apart differ, and an unlock with a handle that is out of date by as many changes nothing. The class in `MutexCalls` has the three
operations as methods that update the fields, each proved to do what its steps do when nobody interferes.
`SelfDeadlock` shows that a thread that locks again without its handle never gets on; `http.cpp` does so
at line 285 when it releases a connection that could not be initialized. That is the only way to get stuck:
`DeadlockIsReachable` leads there from every initial state, and `FreedExactly` and `GetsInExactly` prove that in every reachable state the lock can still be freed, and a
waiting thread can still get it, exactly when the holder has not locked again without its handle.

**Strings** (`WildMatch`, `MemCopy`, `NumberText`). The matcher that remembers only the last star decides
the recursive matching relation, and `MatchesMeans` says without recursion what that is: the characters of the
pattern can be placed along the string, each star over any stretch and each other one on a character it fits. The word-wise copy is a move for every overlap. Printing a number and
reading it back gives the number, and in every base the numeral has the value of the number; the reader takes its length through a signed byte, so it reads all
characters exactly when there are at most 128.

**Digest** (`Sha1`, `Sha1Vector`). Any split of a message into inputs gives the digest of the whole (`HashParts`), with padding as in
section 4 and the block computation as in section 7 of FIPS PUB 180-1, but with this repository's own
initial words. Padding is injective, on all messages the length words can count. The block computation from the
initial words of the standard is proved to give the known answer of its appendix A, in single rounds, and the
step constants to be roots.

**Percent codec** (`UrlCodec`, `UrlPieces`). Decoding undoes encoding, for the two functions on values and for the two
methods in a row; every percent sign in the output starts a triplet as in section 2.1 of RFC 3986. The decoder reports a malformed text by the length 65535. `DecodeExactly` says of every text whether it
is accepted and what it means: triplets with digits of either case, `+` for a space, and other characters.

**JSON** (`HyperText`, `JsonSlots`, `JsonGrammar`, `JsonParser`, `JsonFacts`, `JsonText`, `JsonRoundTrip`,
`JsonLayout`, `JsonRefusals`, `JsonNesting`). The parser reads a lenient dialect of section 2 of RFC 8259. Its methods share one read
position and are proved equal to a grammar on positions of the text; every parse of every byte string
terminates and every slice lies within the text. The memory allocator is a script of answers; a parse ends with the
memory error exactly when it refused once, and then holds the first of the pairs. Names, strings and numbers are slices, so strings keep
their escapes. The law that parsing the compact text of a tree gives the tree back is false for trees
with an array directly in an array, because the bracket that closes the inner array also ends the
outer one. `RoundTripExactly` proves that it holds exactly for the trees without such an array, and
`NestedExample` is the failing tree with the shortest text. `LayoutParses` proves the law for every text of the
tree: any blanks around every token, commas to spare in front of names and values, strings and names between
either kind of quotes, and names without any. `NumberExactly` and `NameExactly` say which spellings are taken
for numbers and names, and `PairsGoOn`, `ItemsGoOn`, `PairGoesOn` and `Mismatched` which symbols end the parse. The words true, false and null may be cut short;
`WordsMayBeCutShort` says exactly which runs of letters are taken for which value.

## Model

| member | source | states |
|---|---|---|
| ZoneSizes.RoundedIsLeast | core/mem/zone.c:4-24 | the rounded size is the least size class (powers of two from 16, whole pages) that holds the request |
| ZoneSizes.RoundedTwice | core/mem/zone.c:4-24 | rounding a rounded size changes nothing |
| ZoneSizes.Align | core/mem/zone.c:4-24 | every 32-bit request is rounded to its class; 0 exactly for 0 and above 0xFFFFF000, where the 32-bit product wraps |
| ZoneSizes.BitNumber | core/mem/zone.c:49-59 | the scan for the leading bit gives the number of binary digits |
| ZoneSizes.ZoneOfClass | core/mem/zone.c:61-69 | every class has a zone inside the table, at most 12 exactly for sizes below a page |
| ZoneSizes.SameZone | core/mem/zone.c:61-69 | classes below a page never share a zone, nor do they share one with whole pages |
| ZoneBitmap.MasksAreSeparate | core/mem/zone.c:112-137 | the 64 shifted masks are non-zero and share no bit |
| ZoneBitmap.OnAfterSet | core/mem/zone.c:137 | setting a place turns on that place of the 256 and no other |
| ZoneBitmap.OnAfterClear | core/mem/zone.c:264-265 | clearing a place turns off that place and no other |
| ZoneBitmap.CountAfterSet | core/mem/zone.c:137-138 | setting a clear place raises the number of set places by one |
| ZoneBitmap.CountAfterClear | core/mem/zone.c:264-266 | clearing a set place lowers it by one |
| ZoneBitmap.FullExactlyWhenAllOn | core/mem/zone.c:193-197 | the counter equals the capacity exactly when every place is taken |
| ZoneBitmap.FirstClear | core/mem/zone.c:109-125 | the scan stops at the first clear place, with its word and bit inside the bitmap |
| ZoneBitmap.UnitBit | core/mem/zone.c:89-103 | a place is split into word and bit exactly when the page has it |
| ZoneLayout.PlaceInside | core/mem/zone.c:136 | every place of a page ends inside the page |
| ZoneLayout.PlaceOf | core/mem/zone.c:260 | an offset in a page falls into exactly the place its quotient names |
| ZoneStates.BlockInRange | core/mem/zone.c:105-160 | a live block lies inside one owned range, the data of its entry |
| ZoneStates.BlocksAreDisjoint | core/mem/zone.c:105-209 | no two live blocks share a byte |
| ZoneStates.PageGivenKeeps | core/mem/zone.c:130-133 | giving an entry its page keeps all relations |
| ZoneStates.TakenKeeps | core/mem/zone.c:135-139 | taking a place keeps all relations and gives a new block |
| ZoneStates.TakenWholeKeeps | core/mem/zone.c:141-157 | taking a whole entry keeps all relations and gives a new block |
| ZoneStates.GivenKeeps | core/mem/zone.c:259-270 | giving up a place keeps all relations |
| ZoneStates.GivenWholeKeeps | core/mem/zone.c:271-281 | giving up a whole entry and its pages keeps all relations |
| ZoneChains.FirstPageKeeps | core/mem/zone.c:220-231 | a first header page keeps all relations |
| ZoneChains.NextPageKeeps | core/mem/zone.c:173-183 | a header page hooked behind the last one keeps all relations |
| ZoneChains.PageHasRoom | core/mem/zone.c:196-206 | a page whose counter is below its capacity has an entry below its own |
| ZoneChains.PageIsChained | core/mem/zone.c:61-69 | every header page is on the chain of the zone its object size names |
| ZoneSearch.SmallHit | core/mem/zone.c:258-270 | the bit at an address decides whether a live block of the size covers it |
| ZoneSearch.LargeHit | core/mem/zone.c:271-281 | object count and data size decide whether a live block of the size has the address in its first page |
| ZoneSearch.ScanSees | core/mem/zone.c:251-288 | the scan of the zone meets the entry of every block that covers the address |
| ZoneSearch.CoversOnce | core/mem/zone.c:241-294 | at most one live block of the size covers an address |
| ZoneFit.FilledInOrder | core/mem/zone.c:189-206 | a page that serves its first entry with room keeps giving its entries their pages in order |
| ZoneFit.StandingMeans | core/mem/zone.c:172-187 | if the first page with room has a free place on a page of an entry, the walk along the chain ends there and adds nothing |
| ZoneFit.FullOne | core/mem/zone.c:168-172 | the walk passes a header page exactly when all of its 63 entries are full |
| ZoneAllocator.Zones.constructor | core/mem/zone.h:48-57 | a context before its first use |
| ZoneAllocator.Zones.PageAlloc | core/mem/zone.h:39-40 | the callback gives a range of its own or nothing, and counts its refusals; after the script it never refuses |
| ZoneAllocator.Zones.PageFree | core/mem/zone.h:41-42 | only a range that was handed out goes back, whole |
| ZoneAllocator.Zones.Init | core/mem/zone.c:72-84 | on a new context success exactly when the table got its page, then no block is live; on one in use the table is cleared once more and all pages stay out |
| ZoneAllocator.Zones.Zone | core/mem/zone.c:61-69 | the zone index is always inside the table |
| ZoneAllocator.Zones.EntryPage | core/mem/zone.c:128-133 | an entry gets a page when it has none, and no page is asked for when it has one |
| ZoneAllocator.Zones.EntryPlace | core/mem/zone.c:108-140 | the first free place becomes a new block of the size; null only when the page was refused; with a page of its own the entry asks for none and cannot fail |
| ZoneAllocator.Zones.EntryWhole | core/mem/zone.c:141-157 | a free entry becomes a new block of whole pages; null only when they were refused |
| ZoneAllocator.Zones.EntryAlloc | core/mem/zone.c:105-160 | both kinds of entry |
| ZoneAllocator.Zones.FindRoom | core/mem/zone.c:196-199 | the scan ends at the least entry with fewer objects than it has places for |
| ZoneAllocator.Zones.FillPage | core/mem/zone.c:189-205 | a page that is not full serves the request from the first free place of its first entry with room, and counts it |
| ZoneAllocator.Zones.AppendPage | core/mem/zone.c:173-183 | the chain grows by one clear page, or nothing changes |
| ZoneAllocator.Zones.FirstHeader | core/mem/zone.c:220-231 | the zone gets its first header page, or nothing changes |
| ZoneAllocator.Zones.ChainAlloc | core/mem/zone.c:162-209 | the walk terminates at the first page of the chain with room, or at a new one when all are full, and the first fit there serves the request; with a free place on a page at hand no page is asked for |
| ZoneAllocator.Zones.Alloc | core/mem/zone.c:212-238 | adds exactly one live block of the least class, at the first fit on the first header page of its zone with room; null exactly when the page allocator refused once, and never when that page has a free place on a page of an entry |
| ZoneAllocator.Zones.Locate | core/mem/zone.c:251-288 | the scan finds the entry an address lies in; if there is none, no live block of the zone covers it |
| ZoneAllocator.Zones.Hit | core/mem/zone.c:314-327 | the test at that entry succeeds exactly when a live block of the size covers the address |
| ZoneAllocator.Zones.Verify | core/mem/zone.c:297-340 | 1 exactly when the address is in a live block of the class, in its first page if it has several |
| ZoneAllocator.Zones.ReleasePlace | core/mem/zone.c:259-269 | one bit and two counters go down and exactly that block goes |
| ZoneAllocator.Zones.ReleaseWhole | core/mem/zone.c:272-279 | the block goes and exactly its pages go back |
| ZoneAllocator.Zones.Free | core/mem/zone.c:241-294 | 0 exactly when Verify accepts; then the one block over the address goes and no other; otherwise nothing changes |
| ZoneAllocator.Zones.Safety | core/mem/zone.c:105-294 | in every valid state live blocks are apart and inside owned ranges |
| ZoneAllocator.Zones.Address | core/mem/zone.c:105-160 | a small block lies at its place number times its size in the page of its entry, a large one on whole pages of its own |
| ZoneAllocator.Zones.Counters | core/mem/zone.c:193-199 | header counter is the sum of entry counters, entry counter the number of set bits |
| ZoneAllocator.Zones.NothingLost | core/mem/zone.c:105-294 | every outstanding range is the zone table, a header page or the data of an entry |
| ZoneRuns.Serve | core/mem/zone.c:212-340 | each request is a step of the simple map of blocks |
| ZoneRuns.Run | core/mem/zone.c:212-340 | every run is a run of the simple map, blocks always apart, null as often as the page allocator refused |
| ZoneDestroy.PagesOfEntry | core/mem/zone.c:352-359 | the number of pages given back for an entry is the number it came with |
| ZoneDestroy.DestroyEntries | core/mem/zone.c:349-362 | the data of all entries of the first header page goes back |
| ZoneDestroy.DestroyChain | core/mem/zone.c:342-367 | so do all header pages of the chain, but not the data of the later ones |
| ZoneDestroy.Destroy | core/mem/zone.c:370-388 | everything goes back except the data of later header pages |
| ZoneDestroy.LostPages | core/mem/zone.c:342-388 | exactly which ranges stay behind |
| ZoneDestroy.AllGoesBackExactly | core/mem/zone.c:342-388 | everything goes back exactly when no chain has data in a page behind its first |
| ZoneDestroy.OnFirstPage | core/mem/zone.c:105-209 | while no later page has data, every block has its place on the first header page of its zone |
| ZoneDestroy.TooManyForOnePage | core/mem/zone.c:342-388 | with more live blocks of one size than 63 entries have places for, pages are certain to be lost |
| ZoneDestroy.LoseOne | core/mem/zone.c:72-388 | after 64 blocks of 4096 bytes, none refused, the destroyed context leaves pages out |
| WildMatch.WildCmp | core/additions/str.c:291-328 | returns 1 exactly when the string matches the pattern, that is when the pattern can be placed along it; and terminates |
| WildMatch.MatchesMeans | core/additions/str.c:291-328 | a pattern matches exactly when its characters can be placed along the whole string, stars over stretches, others on characters they fit |
| WildMatch.PlainPattern | core/additions/str.c:294-299 | a pattern without stars matches exactly the strings of its length that agree with it wherever it has no question mark |
| WildMatch.StarTakesAll | core/additions/str.c:304-311 | a single star matches every string |
| WildMatch.EarlierStarIsRedundant | core/additions/str.c:304-321 | whatever an earlier star could still reach, the last star reaches too |
| WildMatch.LiteralsConsume | core/additions/str.c:313-316 | a match across plain characters up to a star leaves a match of the rest further on |
| WildMatch.LaterStartsFail | core/additions/str.c:317-320 | at the end of the string no later start of the pattern helps |
| WildMatch.MatchesSplits | core/additions/str.c:291-328 | a pattern in two parts matches exactly the texts that fall into two such parts |
| MemCopy.MemCpy | core/additions/str.c:5-43 | the destination ends as the source was, whatever the overlap, and nothing else changes |
| MemCopy.CopyUp | core/additions/str.c:11-25 | the upward branch, words and then the tail |
| MemCopy.CopyDown | core/additions/str.c:26-41 | the downward branch, words and then the front |
| MemCopy.FrontThenRest | core/additions/str.c:16-25 | moving upwards, a front part and then the rest is one move |
| MemCopy.BackThenFront | core/additions/str.c:31-40 | moving downwards, a back part and then the front is one move |
| MemCopy.MovedAt | core/additions/str.c:5-43 | each byte after the move, inside and outside the destination |
| NumberText.StrRev | core/additions/str.c:330-343 | the string is reversed in place by exclusive or, its terminator stays |
| NumberText.ToText | core/additions/str.c:381-403 | the buffer holds the numeral of the number and a terminator |
| NumberText.NumeralHasNoNul | core/additions/str.c:381-403 | a numeral has at least one character and no NUL, so the reversal sees all of it |
| NumberText.NumeralMeans | core/additions/str.c:362-403 | in every base from 2 to 36 the numeral has digits below the base, figures and then small letters, its value is the number, and it begins with 0 only for 0 |
| NumberText.ToNumber | core/additions/str.c:345-360 | the value of the figures read, modulo 2^32, whatever stands between them |
| NumberText.ReadsAll | core/additions/str.c:345-350 | all characters are read exactly when there are at most 128 |
| NumberText.NumeralSpells | core/additions/str.c:345-403 | the decimal numeral of n has the value n |
| NumberText.SpelledSkips | core/additions/str.c:351-354 | a character that is not a figure makes no difference, wherever it stands |
| NumberText.PrintThenRead | core/additions/str.c:345-391 | a 32-bit number printed and read again is the number |
| Sha1.Context.constructor | core/mem/sha1.c:24-41 | a fresh context has taken in nothing and has the five initial words of the repository |
| Sha1.Context.Reset | core/mem/sha1.c:24-41 | after a reset nothing is taken in, with the repository's own five initial words |
| Sha1.Context.Input | core/mem/sha1.c:76-112 | the message grows by the data; state errors stick; an overlong message is recognized exactly |
| Sha1.Context.AbsorbAll | core/mem/sha1.c:94-111 | the input loop with its carry into the high length word |
| Sha1.Context.ProcessMessageBlock | core/mem/sha1.c:116-185 | the hash words become the compression of the hash words and the block |
| Sha1.Context.RunRounds | core/mem/sha1.c:143-177 | the eighty rounds |
| Sha1.Context.ExpandBlock | core/mem/sha1.c:126-135 | the word schedule |
| Sha1.Context.PadMessage | core/mem/sha1.c:205-237 | both padding branches: the hash words are those of the padded message |
| Sha1.Context.Result | core/mem/sha1.c:46-73 | the digest of everything taken in, again on every later call |
| Sha1.CloseLong | core/mem/sha1.c:212-222 | the padding when the block has no room for the length |
| Sha1.CloseShort | core/mem/sha1.c:222-227 | the padding when it has |
| Sha1.PadInjective | core/mem/sha1.c:205-237 | no two countable messages have the same padded form |
| Sha1.HashKey | core/mem/map.cpp:29-36 | the key hash of the map is the digest of the key |
| Sha1.HashParts | core/mem/sha1.c:24-112 | however the message is split into inputs, the digest of the whole; or the error exactly when the length words cannot count it |
| Sha1.ConstantsAreRoots | core/mem/sha1.c:117-119 | the constants of the four groups of rounds are the square roots of 2, 3, 5 and 10 times 2^30, rounded down |
| Sha1.OctetOfWord | core/mem/sha1.c:67-69 | the octets of a word of the block are the octets it was made of, the first one leading |
| Sha1.WordOfOctets | core/mem/sha1.c:126-131 | a word is rebuilt from its four octets |
| Sha1Vector.AbcIsPadded | core/mem/sha1.c:205-237 | the padded form of "abc" |
| Sha1Vector.KnownAnswer | core/mem/sha1.c:116-185 | the block computation gives the known answer of appendix A of FIPS PUB 180-1 |
| UrlCodec.IsUnsafe | io/libnet/url-codec.cpp:55-59 | the scan finds exactly the unsafe characters |
| UrlCodec.HexDigitOrder | io/libnet/url-codec.cpp:67-72 | a value below 16 exactly for hexadecimal digits of either case |
| UrlCodec.HexDigitValue | io/libnet/url-codec.cpp:67-72 | the value is the place of the digit among the digits |
| UrlCodec.UrlEncode | io/libnet/url-codec.cpp:129-152 | the buffer holds the encoding and its terminator, or 0 when there is no room |
| UrlCodec.UrlDecode | io/libnet/url-codec.cpp:88-114 | the buffer holds the decoded text; 0 without room; the error number for a malformed text |
| UrlCodec.EncodedLength | io/libnet/url-codec.cpp:129-152 | the encoding is longer by two for each unsafe character |
| UrlCodec.EncodedIsWellFormed | io/libnet/url-codec.cpp:133-137 | every percent sign starts a triplet and nothing else unsafe is left |
| UrlCodec.RoundTrip | io/libnet/url-codec.cpp:88-152 | decoding undoes encoding for every NUL-free text |
| UrlCodec.EncodeInjective | io/libnet/url-codec.cpp:129-152 | different texts have different encodings |
| UrlCodec.EncodedHasNoNul | io/libnet/url-codec.cpp:129-152 | the encoding of a C string is a C string |
| UrlCodec.DecodedWithRoom | io/libnet/url-codec.cpp:88-114 | an encoded text is decoded exactly when the buffer has room for the text |
| UrlCodec.EncodeThenDecode | io/libnet/url-codec.cpp:88-152 | the two calls in a row give the text back exactly when both buffers have room, else 0 |
| UrlCodec.DecodeNeedsNoMoreThanSource | io/libnet/url-codec.cpp:88-114 | a text decodes to at most its own length |
| UrlCodec.RoomLaw | io/libnet/url-codec.cpp:91 | a smaller buffer gives the same result or no room |
| UrlPieces.DecodeExactly | io/libnet/url-codec.cpp:88-114 | with room enough a text is decoded exactly when it is a sequence of triplets and other characters, and then to what these mean |
| UrlPieces.PlainDecodes | io/libnet/url-codec.cpp:104-110 | a text without percent signs stands for itself, but + for a space |
| UrlPieces.UnsafeExactly | io/libnet/url-codec.cpp:42 | the encoded characters are the space, the percent sign, the quotation mark and the reserved ones of section 2.2 of RFC 3986 |
| UrlPieces.EncodeWrites | io/libnet/url-codec.cpp:129-152 | each of these becomes a triplet of its value in upper-case digits, each other character itself |
| ReentrantLock.InvStep | core/repository-2/mutex.cpp:3-49 | no step of any thread breaks the invariant |
| ReentrantLock.RunInv | core/sync/mutex.cpp:49-100 | every state of every run satisfies it |
| ReentrantLock.MutualExclusion | core/repository-2/mutex.cpp:13-40 | at most one holder, and between calls the counter is its number of unmatched locks |
| ReentrantLock.ReleasedAtLastUnlock | core/repository-2/mutex.cpp:42-49 | the inner lock is released exactly by the matching last unlock |
| ReentrantLock.OwnerUnlockMatches | core/repository-2/mutex.cpp:42-49 | an unlock with a held handle is never lost |
| ReentrantLock.HandleStable | core/repository-2/mutex.cpp:3-5 | a handle stays good as long as its acquisition |
| LockHandles.CountFits | core/repository-2/mutex.cpp:16-18 | in every run the handle counter is the number of outermost acquisitions begun, modulo 2^32 |
| LockHandles.HandleOfAcquisition | core/repository-2/mutex.cpp:3-5 | the handle an acquisition returns is its number above the low word of the address |
| LockHandles.HandlesDiffer | core/repository-2/mutex.cpp:3-25 | in every run two outermost acquisitions fewer than 2^32 apart have different handles |
| LockHandles.NewerHolder | core/repository-2/mutex.cpp:13-25 | once another call has acquired the lock later, at least one newer acquisition has begun |
| LockHandles.StaleUnlockIgnored | core/repository-2/mutex.cpp:42-49 | an unlock with the handle of an acquisition changes nothing once between 1 and 2^32 - 1 newer ones have begun |
| ReentrantLock.SelfDeadlock | core/repository-2/mutex.cpp:13-25 | locking again without the handle never returns |
| MutexCalls.FirstLock | core/repository-2/mutex.cpp:13-25 | the six steps of an outermost acquisition add up to the method |
| MutexCalls.NestedLock | core/repository-2/mutex.cpp:20-23 | the four steps of a nested one |
| MutexCalls.TryInVain | core/repository-2/mutex.cpp:27-35 | a try that fails changes nothing |
| MutexCalls.HolderUnlock | core/repository-2/mutex.cpp:42-49 | an unlock by the holder, with or without the release |
| MutexCalls.StaleUnlock | core/repository-2/mutex.cpp:42-49 | an unlock with a handle already given up releases the inner lock once more |
| MutexCalls.Mutex.constructor | core/repository-2/mutex.cpp:7-9 | a free lock |
| MutexCalls.Mutex.GetHandle | core/repository-2/mutex.cpp:3-5 | the low word of the address below, the counter above |
| MutexCalls.Mutex.Lock | core/repository-2/mutex.cpp:13-25 | returns the current handle; the fields change as the steps of the call say |
| MutexCalls.Mutex.TryLock | core/repository-2/mutex.cpp:27-40 | 0 exactly when somebody else has the lock; otherwise as Lock |
| MutexCalls.Mutex.Unlock | core/sync/mutex.cpp:86-100 | one acquisition less with the holder's handle, nothing with another |
| LockProgress.WaitsExactly | core/repository-2/mutex.cpp:13-49 | a thread cannot take its next step exactly when it wants the inner lock while that is taken |
| LockProgress.OwnerGetsCloser | core/repository-2/mutex.cpp:13-49 | each step of a holder that gives back what it has brings it closer to the release |
| LockProgress.OwnerFrees | core/repository-2/mutex.cpp:42-49 | left alone, a holder that does not wait for itself frees the inner lock |
| LockProgress.FreedExactly | core/repository-2/mutex.cpp:13-49 | in every reachable state the taken lock can be freed exactly when the holder has not locked again without its handle |
| LockProgress.GetsInExactly | core/repository-2/mutex.cpp:13-25 | in every reachable state a waiting thread can get the lock exactly under that condition |
| LockProgress.DeadlockIsReachable | core/repository-2/mutex.cpp:13-25 | from every initial state any thread can lock twice without its handle, and then nobody can free the lock or get it |
| LockProgress.OneThreadDeadlocks | core/repository-2/mutex.cpp:13-25 | such a run of a single thread |
| LinkList.List.constructor | core/mem/ll_alg.c:20-40 | all columns empty, each with a cursor at 0 |
| LinkList.List.Add | core/mem/ll_alg.c:128-231 | the record joins the end of the selected column and becomes current, and the cursor agrees |
| LinkList.List.First | core/mem/ll_alg.c:542-556 | the first record becomes current and the cursor agrees |
| LinkList.List.Last | core/mem/ll_alg.c:558-572 | the last record becomes current and the cursor agrees |
| LinkList.List.Next | core/mem/ll_alg.c:515-528 | the successor of the current record, if any |
| LinkList.List.Prev | core/mem/ll_alg.c:574-588 | the predecessor of the current record, if any |
| LinkList.List.Get | core/mem/ll_alg.c:78-125 | the record the cursor walk ends at |
| LinkList.List.Find | core/mem/ll_alg.c:78-110 | with an agreeing cursor the record of that index |
| LinkList.WalkIsRight | core/mem/ll_alg.c:78-110 | the walk finds the record of the index exactly when the cursor agrees or already stands on it out of range |
| LinkList.List.AgreedWalksMeet | core/mem/ll_alg.c:78-110 | with an agreeing cursor both walks of an insertion end where they should |
| LinkList.List.Ins | core/mem/ll_alg.c:233-297 | the new record stands in front of the one the walk ends at, which is the one at the index when the cursor agrees; the others keep their order |
| LinkList.List.Rem | core/mem/ll_alg.c:299-340 | the record the walk ends at leaves, the one at the index when the cursor agrees, which it then does again; the believed index steps back when the last record left |
| LinkList.List.Del | core/mem/ll_alg.c:342-384 | the current record leaves and a neighbour becomes current; the believed index steps back when it was the last |
| LinkList.List.Clr | core/mem/ll_alg.c:386-408 | the records of the column are released in order, and its cursor is at 0 |
| LinkList.List.Sel | core/mem/ll_alg.c:418-429 | succeeds exactly for records of the selected column |
| LinkList.List.Mov | core/mem/ll_alg.c:431-495 | the record leaves its column and joins the end of the other; the panic branch is unreachable |
| LinkList.List.Select | core/mem/ll_alg.c:410-416 | selects a column that exists |
| LinkList.List.Count | core/mem/ll_alg.c:59-65 | the length of the selected column |
| LinkList.List.Current | core/mem/ll_alg.c:530-540 | the current record |
| LinkList.List.Disjoint | core/mem/ll_alg.c:431-495 | columns have no record in common |
| LinkList.List.CountAll | core/mem/ll_alg.c:431-495 | the columns together have all records |
| LinkList.MoveConserves | core/mem/ll_alg.c:431-495 | a move keeps the multiset of all records |
| LinkList.MoveKeepsCursor | core/mem/ll_alg.c:451-459 | exactly when a move out of a column leaves its cursor right |
| LinkList.MoveIntoCursor | core/mem/ll_alg.c:461-488 | exactly when a move into a column leaves its cursor right |
| LinkList.StepKeepsCursor | core/mem/ll_alg.c:515-588 | stepping keeps the cursor right, through its 32-bit index |
| ListRuns.Landed | core/mem/ll_alg.c:78-588 | an operation that leaves one column with its cursor right leaves all cursors right |
| ListRuns.Serve | core/mem/ll_alg.c:78-588 | each call is a step on plain sequences with a position each: ll_get(i) is the record at i |
| ListRuns.Run | core/mem/ll_alg.c:78-588 | every history without ll_sel and ll_mov is one on plain sequences, and all cursors agree |
| ListRuns.Begin | core/mem/ll_alg.c:20-588 | so is every history of a new list |
| ObjectPool.Pool.constructor | core/mem/pool.cpp:106-120 | two empty columns |
| ObjectPool.Pool.Alloc | core/mem/pool.cpp:126-148 | the first free record, or a new one; never one that is busy |
| ObjectPool.Pool.FreeRec | core/mem/pool.cpp:150-163 | a busy record joins the free ones; any other is refused and nothing changes |
| ObjectPool.Pool.Verify | core/mem/pool.cpp:165-176 | true exactly for busy records |
| ObjectPool.Pool.FreeAll | core/mem/pool.cpp:55-69 | all busy records become free in order, and the loop terminates |
| ObjectPool.Pool.Clear | core/mem/pool.cpp:37-53 | both columns end empty and every record was told its deletion |
| ObjectPool.Pool.Parts | core/mem/pool.cpp:37-176 | free and busy records partition the records of the list |
| ObjectPool.TraceSteps | core/mem/pool.cpp:126-163 | the callback language: use, free and delete in turn |
| ObjectPool.TraceIsPrefix | core/mem/pool.cpp:37-163 | every callback trace is a prefix of NEW (FREE BUSY)* FREE DELETE |
| BufferMap.Map.constructor | core/mem/bmap.cpp:70-81 | three empty columns |
| BufferMap.Map.Alloc | core/mem/bmap.cpp:98-137 | the first free buffer or a new one becomes busy and hears its initialization; no buffer leaves the dirty column, and all others keep memory and user word |
| BufferMap.Map.Free | core/mem/bmap.cpp:139-158 | the buffer becomes free, written first if it was dirty |
| BufferMap.Map.Dirty | core/mem/bmap.cpp:170-183 | the buffer joins the dirty column |
| BufferMap.Map.Settle | core/mem/bmap.cpp:228-237 | one buffer is read or written and leaves the dirty column |
| BufferMap.Map.SettleAll | core/mem/bmap.cpp:277-293 | each dirty buffer is handled exactly once and becomes busy with its memory and user word as they were; the column ends empty |
| BufferMap.Map.Flush | core/mem/bmap.cpp:261-297 | commits one buffer or every dirty one exactly once; the dirty ones among them become busy, and nothing else of any buffer changes |
| BufferMap.Map.Reset | core/mem/bmap.cpp:223-259 | reads back one buffer or every dirty one exactly once; the dirty ones among them become busy, and nothing else of any buffer changes |
| BufferMap.Map.UninitAll | core/mem/bmap.cpp:83-96 | every buffer hears its end exactly once and all columns end empty |
| BufferMap.Map.Status | core/mem/bmap.cpp:299-311 | the numbers of the columns and of all buffers |
| BufferMap.Serve | core/mem/bmap.cpp:83-297 | in each call of the map a buffer leaves the dirty column only with its write, its read or its end |
| BufferMap.OneMorePoint | core/mem/bmap.cpp:83-297 | the account of the dirty buffers goes on from call to call |
| BufferMap.Run | core/mem/bmap.cpp:83-297 | in every sequence of calls, between any two of them, a buffer leaves the dirty column only after it was written, read again or given up |
| BufferMap.ShiftLeavesDirty | core/mem/bmap.cpp:139-297 | one move out of the dirty column with its event |
| HttpScheduler.Server.constructor | io/libnet/http.cpp:137-157 | three empty columns and nothing in the workers' hands |
| HttpScheduler.Server.AllocConnection | io/libnet/http.cpp:237-253 | a free or new record joins the pending ones; it has its connection, and no other record is touched |
| HttpScheduler.Server.GetConnection | io/libnet/http.cpp:294-310 | the first pending record goes to one worker, and no worker had it before; it keeps its connection, and no other record is touched |
| HttpScheduler.Server.PendingConnection | io/libnet/http.cpp:312-321 | a record whose state word is busy goes to the end of the pending ones and out of its worker's hands; any other stays; it keeps its connection, and no other record is touched |
| HttpScheduler.Server.ReleaseConnection | io/libnet/http.cpp:323-334 | a busy or pending record becomes free and nobody has it; a second release does nothing |
| HttpScheduler.Server.OneColumn | io/libnet/http.cpp:237-334 | each record is in one column, busy exactly when a worker has it, and no two workers have a record in common |
| HttpScheduler.BoundedWait | io/libnet/http.cpp:294-321 | whatever else goes on in the queue, the record at position k is handed out by the (k+1)-th call |
| HttpScheduler.MovesUp | io/libnet/http.cpp:294-321 | until then it only moves up in the queue, one place for each call |
| HttpScheduler.InTwoParts | io/libnet/http.cpp:294-321 | a run of the queue in two parts is the second part on what the first one left |
| HttpScheduler.ServedInTurn | io/libnet/http.cpp:294-321 | a record pending at any point of a run is returned by the call its place says, or has only moved up |
| HttpScheduler.Serve | io/libnet/http.cpp:237-334 | each call of the server by any thread is one step of the queue |
| HttpScheduler.Run | io/libnet/http.cpp:97-334 | in every order of calls the records that get_connection returns are those the queue hands out, each in its turn, and the workers' hands stay apart |
| HashChains.Hash | core/mem/map_alg.c:5-16 | the multiplicative hash in 64-bit arithmetic |
| HashChains.HashIsPolynomial | core/mem/map_alg.c:5-16 | the hash is 5381 times 33 to the length plus the bytes as digits to the base 33, wrapped once to 64 bits |
| HashTable.Table.AddRecord | core/mem/map_alg.c:33-58 | the record joins the end of its bucket unless its digest is there; collisions follow |
| HashTable.Table.FindRecord | core/mem/map_alg.c:112-119 | the record with the digest and its predecessor, or none |
| HashTable.Table.Remove | core/mem/map_alg.c:222-225 | the record leaves its chain, the rest keeps its order |
| HashTable.Table.Clear | core/mem/map_alg.c:236-251 | every record is released once and all buckets end empty |
| HashTable.MoveAll | core/mem/map_alg.c:69-85 | the new table holds exactly the records of the old one, all in their places |
| HashTable.RehashKeeps | core/mem/map_alg.c:60-96 | the rehash changes no lookup and loses no record |
| HashMap.Map.constructor | core/mem/map_alg.c:18-31 | the empty map |
| HashMap.Map.Remap | core/mem/map_alg.c:60-96 | the same map in 2c+1 buckets, the collisions counted afresh; or no change |
| HashMap.Map.GetRecord | core/mem/map_alg.c:98-123 | the record of a key, none for the empty key |
| HashMap.Map.Get | core/mem/map_alg.c:125-138 | what the plain map has under the digest |
| HashMap.Map.Insert | core/mem/map_alg.c:171-181 | the plain map gains the record; the failing branch only for a digest that is there; the table grows to 2c+1 exactly when the records then reach its capacity c and memory is granted |
| HashMap.Map.Add | core/mem/map_alg.c:161-185 | adds unless present, a record with this key and data; for non-empty keys only the allocator can make it fail; an empty key that is taken is refused |
| HashMap.Map.Set | core/mem/map_alg.c:187-212 | replaces what is there; an empty key is set only once |
| HashMap.Map.Del | core/mem/map_alg.c:214-230 | the plain map without the digest |
| HashMap.Map.Clr | core/mem/map_alg.c:232-255 | the empty map, with no record it did not have before, so that every other call can follow |
| HashMap.Enum.First | core/mem/map_alg.c:292-315 | the first record in bucket order |
| HashMap.Enum.Next | core/mem/map_alg.c:317-347 | the record after it |
| HashMap.VisitAll | core/mem/map_alg.c:390-411 | the records a plain enumeration hands out are the entries of the map, each exactly once |
| HashRuns.Serve | core/mem/map_alg.c:60-255 | each call is a step of the plain map, whatever the table does |
| HashRuns.Run | core/mem/map_alg.c:60-255 | every sequence of add, set, get, del and clr, with any refused allocations, is one of the plain map with the same answers |
| HashRuns.RunKeeps | core/mem/map_alg.c:60-255 | what is filed under a digest stays while no call is for it or empties the map |
| HashRuns.LookFindsLast | core/mem/map_alg.c:125-212 | a get hands out what the last call for its key handed out, if nothing in between was for that digest |
| HyperText.Context.constructor | hypertext/libht/context.c:126-153 | reading starts behind a UTF-8 byte order mark |
| HyperText.Context.ReadUtf8 | hypertext/libht/context.c:11-34 | the next symbol and its position, in 32-bit arithmetic |
| HyperText.Read | hypertext/libht/context.c:11-34 | a symbol other than 0 uses up at least one byte and stays in the text |
| HyperText.Context.Compare | hypertext/libht/context.c:168-241 | 0 exactly when the first symbols agree |
| JsonSlots.Slots.Grow | hypertext/libht/json.c:88-132 | sixteen empty slots behind the old ones, or no change when the memory is refused |
| JsonSlots.Slots.Add | hypertext/libht/json.c:134-174 | the value takes the first empty slot, the table grows only when full; nothing is added exactly when memory is refused |
| JsonSlots.Slots.Element | hypertext/libht/json.c:648-655 | nothing outside the table and in empty slots |
| JsonParser.Parser.ScanNumber | hypertext/libht/json.c:176-234 | the number scanner follows the grammar |
| JsonParser.Parser.ScanName | hypertext/libht/json.c:236-316 | the name scanner follows the grammar |
| JsonParser.Parser.JudgeName | hypertext/libht/json.c:264-304 | what each symbol does to a name, by the quote it opened with |
| JsonParser.Parser.ScanString | hypertext/libht/json.c:318-351 | the string scanner follows the grammar |
| JsonParser.Parser.ScanWord | hypertext/libht/json.c:419-445 | the word scanner follows the grammar and compares inside the text |
| JsonParser.Parser.ReadValue | hypertext/libht/json.c:447-488 | the value reader follows the grammar; a memory error comes through |
| JsonParser.Parser.ReadItems | hypertext/libht/json.c:353-417 | the array reader fills its table as the grammar says; after a refused allocation it reports the memory error and holds the first of the values |
| JsonParser.Parser.ReadPairs | hypertext/libht/json.c:490-610 | the object reader fills its table as the grammar says; after a refused allocation it reports the memory error and holds the first of the pairs |
| JsonParser.Parser.JudgeItem | hypertext/libht/json.c:370-411 | which values an array keeps, skips or refuses, and when it ends |
| JsonParser.Parser.JudgePair | hypertext/libht/json.c:545-576 | what follows the value of a pair |
| JsonParser.Parser.ReadPair | hypertext/libht/json.c:539-582 | the part from the colon on, with the memory error if the pair finds no room |
| JsonParser.Parser.Run | hypertext/libht/json.c:613-627 | the whole parse terminates with the pairs of the root, or with the memory error exactly when memory was refused, and then with the first of them |
| JsonGrammar.ParseValue | hypertext/libht/json.c:447-488 | the read position never moves back and stays in the text |
| JsonGrammar.ItemsGrow | hypertext/libht/json.c:353-417 | what an array has taken in stays first |
| JsonGrammar.PairsGrow | hypertext/libht/json.c:490-610 | so does what an object has taken in |
| JsonFacts.SlicesInText | hypertext/libht/json.c:176-627 | on every byte string every stored slice lies within the text |
| JsonFacts.WordsMayBeCutShort | hypertext/libht/json.c:419-445 | which runs of letters are taken for true, false and null |
| JsonRoundTrip.ReadWide | hypertext/libht/context.c:23-28 | a symbol of several bytes with a lead byte below 0xF8 is these bytes as one number, and none of the characters the parser looks for |
| JsonRoundTrip.LongFormWraps | hypertext/libht/context.c:23-28 | of the eight bytes of a form with the lead byte FF only the last four are left in the word, so it can be any symbol |
| JsonRoundTrip.StringTrip | hypertext/libht/json.c:337-342 | a string ends at its delimiter |
| JsonRoundTrip.NumberTrip | hypertext/libht/json.c:194-225 | a number ends at the separator behind it |
| JsonRoundTrip.WordTrip | hypertext/libht/json.c:426-440 | a word ends at the separator behind it and is recognized |
| JsonRoundTrip.ValueParses | hypertext/libht/json.c:447-488 | a value without nested arrays parses to itself |
| JsonRoundTrip.ItemsParse | hypertext/libht/json.c:366-412 | so do the values of an array |
| JsonRoundTrip.MembersParse | hypertext/libht/json.c:509-604 | so do the members of an object |
| JsonRoundTrip.RoundTrip | hypertext/libht/json.c:176-610 | parsing the compact text reads all of it and rebuilds the tree, each slice exactly its token |
| JsonRoundTrip.QuotedName | hypertext/libht/json.c:246-290 | a name between two quotes of a kind is read to its closing quote |
| JsonLayout.BareName | hypertext/libht/json.c:252-294 | a name without quotes is read to the colon or blank behind it |
| JsonLayout.BlanksInItems | hypertext/libht/json.c:370-373 | blanks and commas in front of a value of an array are passed over |
| JsonLayout.LeadsInPairs | hypertext/libht/json.c:528-529 | so are blanks, commas and opening braces in front of a name |
| JsonLayout.BlanksInPairs | hypertext/libht/json.c:583-595 | and blanks behind a name and behind a value |
| JsonLayout.BlanksBeforeValue | hypertext/libht/json.c:447-488 | and blanks between a colon and a value |
| JsonLayout.ValueLaid | hypertext/libht/json.c:447-488 | a value with blanks in it parses to its tree |
| JsonLayout.ItemsLaid | hypertext/libht/json.c:366-412 | so do the values of an array |
| JsonLayout.MembersLaid | hypertext/libht/json.c:509-604 | so do the members of an object |
| JsonLayout.LayoutParses | hypertext/libht/json.c:176-627 | parsing any text of a tree, with or without a byte order mark, with blanks around every token and either quotes or none, reads it to the closing brace of the root and rebuilds the tree |
| JsonLayout.ReparseLaid | hypertext/libht/json.c:613-627 | the parser itself gives the tree, unless memory was refused |
| JsonLayout.WhatMayLead | hypertext/libht/json.c:509-536 | in front of the braces of the root exactly the blanks, a comma and a brace are passed over |
| JsonRefusals.NumberExactly | hypertext/libht/json.c:176-234 | up to its separator a number is accepted exactly when it is signs, a digit and then digits and dots, or 0x and hexadecimal digits |
| JsonRefusals.NameExactly | hypertext/libht/json.c:236-316 | up to its end a name is accepted exactly when it is letters, minus signs, underscores and, behind the first place, figures |
| JsonRefusals.PairsGoOn | hypertext/libht/json.c:509-604 | every other symbol before a name, behind a name or behind a value ends the parse of an object with an error |
| JsonRefusals.ItemsGoOn | hypertext/libht/json.c:366-412 | so does every other symbol in place of a value of an array |
| JsonRefusals.PairGoesOn | hypertext/libht/json.c:539-582 | and every other symbol behind a colon |
| JsonRefusals.Mismatched | hypertext/libht/json.c:370-400 | a brace does not end an array, and a bracket does not end an object |
| JsonNesting.ValueGoesWrong | hypertext/libht/json.c:378-411 | a value with an array directly in an array fails, changes, or stops too early |
| JsonNesting.RoundTripExactly | hypertext/libht/json.c:353-417 | the round trip holds exactly for trees without an array directly in an array |
| JsonNesting.NestedExample | hypertext/libht/json.c:378-411 | an object with an empty array in an array does not survive |
| JsonNesting.NestedIsSmallest | hypertext/libht/json.c:353-417 | no tree with a shorter text fails to survive |
| JsonNesting.PrintIsInjective | hypertext/libht/json.c:176-610 | different trees that survive have different texts |
| JsonNesting.Reparse | hypertext/libht/json.c:613-627 | the parser itself gives the tree back exactly in these cases, unless memory was refused |

## Left out

- LinkList.List.Get: asks that the walk ends inside the column; with a cursor left behind by `ll_sel` or `ll_mov` the original can walk off its end.
- LinkList.List.Rem: asks the same of its walk.
- LinkList.List.Ins: asks that its two walks end at neighbours; otherwise the original leaves a chain that is no longer well formed.
- LinkList.List.constructor: the refused allocation of the column states, and a second initialization, which the original ignores.
- HashMap.Map.constructor: the refused allocation of the table.
- HyperText.Context.constructor: is stated for texts without a UTF-16 or UTF-32 byte order mark.
- JsonParser.Parser.ReadValue: does not state the error position, only that there is an error.
- JsonParser.Parser.ReadItems: does not state the error position either.
- JsonParser.Parser.ReadPairs: does not state the error position either.
- JsonParser.Parser.ReadPair: nor does this one.
- JsonParser.Parser.Run: nor does the whole parse, nor the refused allocation of the context itself.
- HttpScheduler.Run: its workers give up a record only while nobody else has it and it is not pending; the release in the middle of `add_connection` never returns, see ReentrantLock.SelfDeadlock.
- MutexCalls.Mutex.Lock: is stated for calls that return at once; waiting is in the step machine.
- NumberText.ToText: the caller's buffer has room for the numeral; the original has no size to check.
- Zone allocator: requests of 0 or above 0xFFFFF000, for which the original's search for the leading bit does not end; the lock callbacks; the overlay of the data size on the first bitmap word, which a zone never mixes.
- JSON: UTF-16 and UTF-32 texts, the error position, parsing with a used context, `json_select`, and the release of the tree; parsed tables are handed over as sequences, so sharing of tables is not modelled.
- Hash map: deletion from inside an enumeration, `map_destroy`, and 32-bit wrap of the counts.
- Linked list: the ring mode and `ll_roll`, record sizes, and 32-bit wrap of the counts.
- Object pool and buffer map: the destructors, the enumeration with a user callback, and callbacks that touch the list themselves.
- Scheduler: worker threads, sockets, timing, and clearing of columns.
- Strings: the formatted print, signed printing, and the plain helpers on C strings.
- Percent codec: the switch that encodes a space as a plus sign.
- The ring buffer, the compression code, the XML parser, repository linking, files, sockets and processes.
