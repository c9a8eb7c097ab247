# is-ip-in-range, modelled in Dafny

This project models the core of the `is-ip-in-range` Java library: a set of
CIDR ranges that answers "is this address inside one of them?" for IPv4 and
IPv6 alike. It consists of three classes:

- `IPv4RadixTree` and `IPv6RadixTree` are uncompressed binary tries.
  - `addRange` walks the first n bits of the address, most significant first, creating missing children, and marks the node it reaches.
  - `contains` walks the address's bits and answers true at the first marked node on the way.
  - Each class also has a textual entry point that parses "addr/n" and "addr".
- `IpRanges` is the dual-stack facade with its `Builder`. It keeps:
  - one tree per family, choosing the family by the presence of a `:` in the text;
  - the list of CIDR strings added so far.

## Files

- `results.dfy` (module `Results`): `Option`, `Result`, and the error kinds. The error kinds stand for the exceptions the library throws.
- `bitkey.dfy` (module `BitKey`): bit strings, big-endian values, and `getBit` over byte arrays. It proves that both keys agree with the plain big-endian reading of the address.
- `text.dfy` (module `Text`): the `String.split`, `trim().isEmpty()` and `Integer.parseInt` behaviour the parsers rely on.
- `prefix_trie.dfy` (module `PrefixTrie`): the trie both tree classes implement, written once over `seq<bool>` keys. Its abstract meaning is `Stored(t)`, the set of marked paths:
  - `contains` holds exactly when a stored prefix is a prefix of the key;
  - `addRange` adds its prefix to that set and nothing else.
- `ipv4_radix_tree.dfy` (module `Ipv4RadixTree`): `IPv4RadixTree`, keyed by bits 31 down to 0 of a `long`.
- `ipv6_radix_tree.dfy` (module `Ipv6RadixTree`): `IPv6RadixTree`, keyed by `getBit` over a 16-byte array.
- `ip_ranges.dfy` (module `IpRanges`): the facade and its builder.
  - A set is a value `RangeSet(v4, v6, history)`.
  - Its invariant `Valid` says that the two trees are exactly what replaying the history, in order, into fresh trees produces.
  - The copy constructor's result equals its source because of `Valid`.

Source paths below are relative to the repository root:

- `main/` stands for `src/main/java/com/github/jmoney/iprange/`
- `test/` stands for `src/test/java/com/github/jmoney/iprange/`

Each table cell spells these paths out in full.

## Model

| member | source | states |
|---|---|---|
| PrefixTrie.Empty | src/main/java/com/github/jmoney/iprange/IPv4RadixTree.java:15-26 | a new tree is a root node with no children and no mark, so it stores no prefix |
| PrefixTrie.Insert | src/main/java/com/github/jmoney/iprange/IPv4RadixTree.java:54-75 | walking the prefix bits (creating missing children) and marking the node reached adds exactly that prefix to the stored prefixes; the root stays a node |
| PrefixTrie.Contains | src/main/java/com/github/jmoney/iprange/IPv4RadixTree.java:91-117 | the lookup loop gives the answer of the recursive reference `Lookup` and inspects at most one bit per key position, whatever the number of stored ranges |
| PrefixTrie.LookupRefines | src/main/java/com/github/jmoney/iprange/IPv4RadixTree.java:91-117 | a key is contained if and only if some stored prefix is a prefix of it |
| PrefixTrie.LookupInsert | src/main/java/com/github/jmoney/iprange/IPv6RadixTree.java:58-128 | after inserting p, a key is contained if and only if it was before or p is a prefix of it |
| PrefixTrie.EmptyContainsNothing | src/test/java/com/github/jmoney/iprange/IPv4RadixTreeTest.java:137-141 | a fresh tree contains no key |
| PrefixTrie.InsertEmptyPrefixContainsAll | src/main/java/com/github/jmoney/iprange/IPv4RadixTree.java:58-74 | a zero-length prefix marks the root, so every key is contained |
| PrefixTrie.InsertFullKeyExact | src/test/java/com/github/jmoney/iprange/IPv4RadixTreeTest.java:12-19 | a full-length prefix in a fresh tree contains that key and no other |
| PrefixTrie.InsertKeepsContained | src/test/java/com/github/jmoney/iprange/IPv4RadixTreeTest.java:73-81 | overlapping or nested ranges never shadow each other: a contained key stays contained after any insertion |
| PrefixTrie.InsertIdempotent | src/main/java/com/github/jmoney/iprange/IPv4RadixTree.java:61-74 | inserting a prefix a second time leaves the tree exactly as it was |
| PrefixTrie.InsertCommutes | src/main/java/com/github/jmoney/iprange/IPv4RadixTree.java:54-75 | the order of two insertions does not change the resulting tree |
| PrefixTrie.InsertPaths | src/main/java/com/github/jmoney/iprange/IPv4RadixTree.java:61-71 | nodes are created lazily: an insertion adds exactly the missing nodes on its prefix's path |
| BitKey.ToBitsIndex | src/main/java/com/github/jmoney/iprange/IPv4RadixTree.java:101 | position j of the n-bit expansion is `(v >> (n-1-j)) & 1` |
| BitKey.ToFromBits | src/main/java/com/github/jmoney/iprange/IPv4RadixTree.java:96-101 | writing out the value of a bit string gives back that bit string |
| BitKey.ToBitsInjective | src/main/java/com/github/jmoney/iprange/IPv4RadixTree.java:96-101 | two values below 2^n with the same n-bit walk are equal |
| BitKey.GetBitIsBigEndian | src/main/java/com/github/jmoney/iprange/IPv6RadixTree.java:136-140 | `getBit(bytes, i)` is bit 8·length − 1 − i of the array read as one big-endian number, so bit 0 is the most significant |
| BitKey.BytesKeyIsBigEndian | src/main/java/com/github/jmoney/iprange/IPv6RadixTree.java:136-140 | reading the bits with `getBit` in order gives the most-significant-first expansion of the array read as one big-endian number |
| BitKey.BytesKeyInjective | src/main/java/com/github/jmoney/iprange/IPv6RadixTree.java:136-140 | byte arrays of one length with the same `getBit` sequence are equal |
| Text.SplitOfJoin | src/main/java/com/github/jmoney/iprange/IPv4RadixTree.java:125 | `split` gives back the fields of a joined string when no field is empty or holds the separator |
| Text.SplitIsFields | src/main/java/com/github/jmoney/iprange/IPv4RadixTree.java:125 | `split` on a one-character separator yields the whole string when the separator is absent; otherwise the fields between separators, none holding the separator, with only empty trailing fields dropped |
| Text.SplitSnoc | src/main/java/com/github/jmoney/iprange/IPv4RadixTree.java:34 | `split` ignores a separator at the end of a non-empty string |
| Text.ParseInt | src/main/java/com/github/jmoney/iprange/IPv4RadixTree.java:132 | `Integer.parseInt` only returns values inside the 32-bit `int` range |
| Text.ParseIntLeadingZero | src/main/java/com/github/jmoney/iprange/IPv4RadixTree.java:132 | leading zeros do not change the value read: "007" is 7 |
| Text.ParseIntSign | src/main/java/com/github/jmoney/iprange/IPv4RadixTree.java:132 | an explicit '+' changes nothing and a '-' negates: "+1" is 1 and "-0" is 0 |
| Text.BlankIffTrimEmpty | src/main/java/com/github/jmoney/iprange/IpRanges.java:82 | `s.trim().isEmpty()` holds exactly when every char of `s` is at most U+0020 |
| Text.ParseDecimal | src/main/java/com/github/jmoney/iprange/IPv4RadixTree.java:132 | `Integer.parseInt` reads back the decimal form of every non-negative `int` |
| Ipv4RadixTree.AddRangeBits | src/main/java/com/github/jmoney/iprange/IPv4RadixTree.java:54-75 | the stored prefixes gain the walked path. Afterwards an address is contained if and only if it was before or shares the top n bits with `ip`. A negative n above `Integer.MIN_VALUE + 32` covers every address; an n above 32 covers none |
| Ipv4RadixTree.Contains | src/main/java/com/github/jmoney/iprange/IPv4RadixTree.java:91-117 | true if and only if a stored prefix is a prefix of the address's 32-bit key |
| Ipv4RadixTree.PathIsKeyPrefix | src/main/java/com/github/jmoney/iprange/IPv4RadixTree.java:58-59 | for n from 0 to 32 the bits `addRange` walks are the first n bits `contains` walks |
| Ipv4RadixTree.KeyPrefix | src/main/java/com/github/jmoney/iprange/IPv4RadixTree.java:96-101 | the first n key bits of `ip` prefix the key of `x` if and only if the two agree on bits 31 down to 32-n |
| Ipv4RadixTree.KeyIsBigEndian | src/main/java/com/github/jmoney/iprange/IPv4RadixTree.java:96-101 | the bits walked for a long are its 32 low bits, most significant first |
| Ipv4RadixTree.KeyInjective | src/main/java/com/github/jmoney/iprange/IPv4RadixTree.java:96-101 | distinct 32-bit addresses have distinct keys |
| Ipv4RadixTree.KeyOfOctets | src/main/java/com/github/jmoney/iprange/IPv4RadixTree.java:130-137 | the long built by shifting in four octets is walked bit by bit exactly as `getBit` walks those octets as an array |
| Ipv4RadixTree.ParseOctets | src/main/java/com/github/jmoney/iprange/IPv4RadixTree.java:131-137 | succeeds if and only if every field parses as an integer from 0 to 255, and yields those integers |
| Ipv4RadixTree.IpToLong | src/main/java/com/github/jmoney/iprange/IPv4RadixTree.java:124-140 | the result is an unsigned 32-bit value |
| Ipv4RadixTree.IpToLongAccepts | src/main/java/com/github/jmoney/iprange/IPv4RadixTree.java:124-140 | accepted if and only if the text has exactly four dot-separated fields that are all octets; a wrong field count is `InvalidAddress`; the value is the big-endian reading of the parsed octets |
| Ipv4RadixTree.IpToLongOfFormat | src/main/java/com/github/jmoney/iprange/IPv4RadixTree.java:124-140 | dotted-decimal text of four octets is read back as their big-endian value |
| Ipv4RadixTree.ParseCidr | src/main/java/com/github/jmoney/iprange/IPv4RadixTree.java:33-44 | a parsed range has a 32-bit address and a prefix length from 0 to 32 |
| Ipv4RadixTree.ParseCidrChecks | src/main/java/com/github/jmoney/iprange/IPv4RadixTree.java:33-44 | the checks fire in source order: field count, then address, then number, then the length's range |
| Ipv4RadixTree.ParseCidrOfFormat | src/main/java/com/github/jmoney/iprange/IPv4RadixTree.java:33-46 | "a.b.c.d/n" formatted from four octets and n is parsed back as their value and n |
| Ipv4RadixTree.TrailingDotIgnored | src/main/java/com/github/jmoney/iprange/IPv4RadixTree.java:125-127 | a '.' at the end of a non-empty literal is ignored: "1.2.3.4." reads as "1.2.3.4" |
| Ipv4RadixTree.TrailingSlashIgnored | src/main/java/com/github/jmoney/iprange/IPv4RadixTree.java:34-35 | "addr/n/" is read exactly as "addr/n" |
| Ipv4RadixTree.AddRange | src/main/java/com/github/jmoney/iprange/IPv4RadixTree.java:33-47 | succeeds if and only if the text parses, fails with the parser's error, and otherwise adds the parsed prefix to the stored prefixes |
| Ipv4RadixTree.ContainsText | src/main/java/com/github/jmoney/iprange/IPv4RadixTree.java:82-84 | fails exactly when `ipToLong` does; otherwise answers whether a stored prefix covers the parsed address |
| Ipv4RadixTree.ZeroPrefixContainsAll | src/test/java/com/github/jmoney/iprange/IPv4RadixTreeTest.java:84-92 | a /0 range contains every address |
| Ipv4RadixTree.NegativePrefixContainsAll | src/main/java/com/github/jmoney/iprange/IPv4RadixTree.java:54-75 | a negative length above `Integer.MIN_VALUE + 32` skips the loop and marks the root, so every address is contained |
| Ipv4RadixTree.OverlongPrefixChangesNothing | src/main/java/com/github/jmoney/iprange/IPv4RadixTree.java:58-59 | a length above 32 changes no answer of `contains(long)` |
| Ipv4RadixTree.FullPrefixExact | src/test/java/com/github/jmoney/iprange/IPv4RadixTreeTest.java:12-19 | a /32 range in an empty tree contains its own address and no other |
| Ipv4RadixTree.EmptyContainsNothing | src/test/java/com/github/jmoney/iprange/IPv4RadixTreeTest.java:137-141 | an empty tree contains no address |
| Ipv6RadixTree.AddRangeBytes | src/main/java/com/github/jmoney/iprange/IPv6RadixTree.java:58-83 | fails if and only if the array is not 16 bytes long (`InvalidKeyLength`) or n exceeds 128 (the walk reads past the array). Otherwise the stored prefixes gain the first n `getBit` bits, and an address is contained afterwards if and only if it was before or shares those bits |
| Ipv6RadixTree.ContainsBytes | src/main/java/com/github/jmoney/iprange/IPv6RadixTree.java:99-128 | fails if and only if the array is not 16 bytes long; otherwise true if and only if a stored prefix is a prefix of its `getBit` sequence |
| Ipv6RadixTree.ContainsWalk | src/main/java/com/github/jmoney/iprange/IPv6RadixTree.java:99-128 | the lookup loop answers as `ContainsBytes` and reads at most 128 bit positions |
| Ipv6RadixTree.IpToBytes | src/main/java/com/github/jmoney/iprange/IPv6RadixTree.java:147-158 | accepted if and only if the platform parser yields an address of exactly 16 bytes; otherwise `InvalidAddress` |
| Ipv6RadixTree.ParseCidr | src/main/java/com/github/jmoney/iprange/IPv6RadixTree.java:37-48 | a parsed range has a 16-byte address and a prefix length from 0 to 128 |
| Ipv6RadixTree.ParseCidrChecks | src/main/java/com/github/jmoney/iprange/IPv6RadixTree.java:37-48 | the checks fire in source order: field count, then address, then number, then the length's range |
| Ipv6RadixTree.ParseCidrOfFormat | src/main/java/com/github/jmoney/iprange/IPv6RadixTree.java:37-50 | "addr/n" is parsed back as the platform's 16 bytes for addr and n |
| Ipv6RadixTree.TrailingSlashIgnored | src/main/java/com/github/jmoney/iprange/IPv6RadixTree.java:38-39 | "addr/n/" is read exactly as "addr/n" |
| Ipv6RadixTree.AddRange | src/main/java/com/github/jmoney/iprange/IPv6RadixTree.java:37-51 | succeeds if and only if the text parses, fails with the parser's error, and otherwise adds the parsed prefix to the stored prefixes |
| Ipv6RadixTree.ContainsText | src/main/java/com/github/jmoney/iprange/IPv6RadixTree.java:90-92 | fails exactly when `ipToBytes` does; otherwise answers whether a stored prefix covers the address's bits |
| Ipv6RadixTree.KeyPrefix | src/main/java/com/github/jmoney/iprange/IPv6RadixTree.java:66-67 | the first n bits of `ip` prefix the bits of `x` if and only if the two agree on `getBit` positions 0 to n-1 |
| Ipv6RadixTree.ZeroPrefixContainsAll | src/test/java/com/github/jmoney/iprange/IPv6RadixTreeTest.java:71-79 | a /0 range contains every 16-byte address |
| Ipv6RadixTree.NegativePrefixContainsAll | src/main/java/com/github/jmoney/iprange/IPv6RadixTree.java:63-82 | a negative length skips the walk and marks the root, so every address is contained |
| Ipv6RadixTree.FullPrefixExact | src/test/java/com/github/jmoney/iprange/IPv6RadixTreeTest.java:12-20 | a /128 range in an empty tree contains its own address and no other |
| Ipv6RadixTree.EmptyContainsNothing | src/test/java/com/github/jmoney/iprange/IPv6RadixTreeTest.java:128-132 | an empty tree contains no address |
| IpRanges.New | src/main/java/com/github/jmoney/iprange/IpRanges.java:43-47 | a new set has an empty history and two trees that store nothing |
| IpRanges.AddRange | src/main/java/com/github/jmoney/iprange/IpRanges.java:81-95 | null or blank text is `InvalidArgument`. The call succeeds if and only if the tree of the text's family accepts it. On success the text is appended to the history and the other family's tree is untouched |
| IpRanges.Adder | src/main/java/com/github/jmoney/iprange/IpRanges.java:93 | a successful `addRange` appends exactly its string to the history |
| IpRanges.Walk | src/main/java/com/github/jmoney/iprange/IpRanges.java:102-107 | the loop keeps the old history as a prefix and appends the accepted strings in order. It stops at the first failure, and runs to the end if and only if nothing failed |
| IpRanges.WalkStops | src/main/java/com/github/jmoney/iprange/IpRanges.java:103-105 | a loop that stopped early stopped at an element whose step failed, with that error |
| IpRanges.WalkPrefix | src/main/java/com/github/jmoney/iprange/IpRanges.java:102-107 | the loop over the elements before the failing one is the same loop without the failure |
| IpRanges.WalkSnoc | src/main/java/com/github/jmoney/iprange/IpRanges.java:102-107 | one more element after a loop that did not fail is one more `addRange`, successful or not |
| IpRanges.AddRanges | src/main/java/com/github/jmoney/iprange/IpRanges.java:102-107 | `addRange` on each element in order. Every element before the first failure stays added, and the failure is that element's `addRange` error |
| IpRanges.FromCollection | src/main/java/com/github/jmoney/iprange/IpRanges.java:53-58 | on success the history is the given list and the set is valid. A failure is the error of an element whose `addRange`, applied after all earlier elements were added, fails |
| IpRanges.Copy | src/main/java/com/github/jmoney/iprange/IpRanges.java:66-71 | the copy constructor gives back a set equal to any valid source |
| IpRanges.Contains | src/main/java/com/github/jmoney/iprange/IpRanges.java:117-128 | null or blank text is `InvalidArgument`; otherwise the tree of the text's family answers, true if and only if one of its stored prefixes covers the parsed address |
| IpRanges.ContainsIpv4 | src/main/java/com/github/jmoney/iprange/IpRanges.java:135-137 | true if and only if a stored IPv4 prefix covers the long's 32-bit key |
| IpRanges.ContainsIpv6 | src/main/java/com/github/jmoney/iprange/IpRanges.java:144-146 | rejects an array that is not 16 bytes long; otherwise true if and only if a stored IPv6 prefix covers its bits |
| IpRanges.NewBuilder | src/main/java/com/github/jmoney/iprange/IpRanges.java:160-172 | a new builder holds a valid set |
| IpRanges.BuilderAddRange | src/main/java/com/github/jmoney/iprange/IpRanges.java:179-182 | a builder call succeeds exactly when the facade call on the builder's set does, and leaves the builder holding that call's result |
| IpRanges.BuilderAddRanges | src/main/java/com/github/jmoney/iprange/IpRanges.java:189-192 | the builder's set and failure are those of the facade's `addRanges` |
| IpRanges.BuilderIsCollection | src/main/java/com/github/jmoney/iprange/IpRanges.java:189-200 | a fresh builder fed a list and built equals the collection constructor on that list, failure for failure |
| IpRanges.BuilderKeepsValid | src/main/java/com/github/jmoney/iprange/IpRanges.java:179-182 | every builder call keeps the built set valid |
| IpRanges.ReplayHistory | src/main/java/com/github/jmoney/iprange/IpRanges.java:93 | a successful replay records exactly the history it replayed |
| IpRanges.StepKeepsReplay | src/main/java/com/github/jmoney/iprange/IpRanges.java:81-95 | a successful step keeps a set equal to its replayed history |
| IpRanges.WalkKeepsReplay | src/main/java/com/github/jmoney/iprange/IpRanges.java:102-107 | so does a whole loop, stopped early or not |
| IpRanges.ReplayIsWalk | src/main/java/com/github/jmoney/iprange/IpRanges.java:66-71 | replaying a history from the back equals the copy constructor's loop over it from the front |
| IpRanges.NewIsValid | src/main/java/com/github/jmoney/iprange/IpRanges.java:43-47 | a new set is valid |
| IpRanges.AddRangeKeepsValid | src/main/java/com/github/jmoney/iprange/IpRanges.java:81-95 | a successful `addRange` keeps a set valid |
| IpRanges.AddRangesKeepsValid | src/main/java/com/github/jmoney/iprange/IpRanges.java:102-107 | `addRanges` keeps a set valid, whether or not it stops early |
| IpRanges.AddRangeEntry | src/main/java/com/github/jmoney/iprange/IpRanges.java:86-93 | a successful `addRange` adds its string's prefix to the tree of its family and nothing to the other |
| IpRanges.StoredIsHistory | src/main/java/com/github/jmoney/iprange/IpRanges.java:81-95 | in a valid set, each tree stores exactly the prefixes of the history's strings of its family |
| IpRanges.ContainsIsHistory | src/main/java/com/github/jmoney/iprange/IpRanges.java:117-128 | a valid set answers `contains` exactly as its list of CIDR strings says |
| IpRanges.CopyIsSource | src/main/java/com/github/jmoney/iprange/IpRanges.java:66-71 | re-adding the history of a valid set, in order, to a fresh set rebuilds that set |
| IpRanges.CopyIsEquivalent | src/main/java/com/github/jmoney/iprange/IpRanges.java:66-71 | the copy succeeds, has the same `getRanges`, and gives the same answer to every `contains`, `containsIPv4` and `containsIPv6` |
| IpRanges.FamilyIsolation | src/main/java/com/github/jmoney/iprange/IpRanges.java:87-91 | adding a range of one family never changes an answer for the other |
| IpRanges.AddRangeKeepsContained | src/main/java/com/github/jmoney/iprange/IpRanges.java:81-95 | an address once contained stays contained after any later `addRange` |
| IpRanges.AddRangeTwice | src/main/java/com/github/jmoney/iprange/IpRanges.java:93 | adding the same string twice leaves both trees as after the first time; the history records the duplicate |

## Where the code differs from its Javadoc and from what the API suggests

The model follows the code in each case.

- **Numeric `addRange` overloads:** the Javadoc gives the prefix length as "0-32" and "0-128" (`IPv4RadixTree.java:52`, `IPv6RadixTree.java:56`). `addRange(long, int)` and `addRange(byte[], int)` do not check it.
  - A negative length marks the root, so every address matches. For IPv4 that holds only above `Integer.MIN_VALUE + 32`; see `Ipv4RadixTree.AddRangeBits` under "Left out".
  - For IPv4, a length above 32 marks a node that `contains` never reaches. The shift count of a `long` is masked to six bits, so the walk keeps reading bits.
  - For IPv6, a length above 128 ends in `ArrayIndexOutOfBoundsException`.
  - Only the textual `addRange` rejects lengths outside 0 to W.
- **Non-numeric prefix:** a prefix-length field that is not a number raises `NumberFormatException` (`InvalidNumber` here). It is not a CIDR-format error.
- **Extra `/`:** a separator that appears twice is not always rejected. `split` drops trailing empty fields, so "10.0.0.0/8/" is accepted as "10.0.0.0/8".
- **Loose IPv4 literals:** `ipToLong` (`IPv4RadixTree.java:124-140`) accepts more than dotted-quad text.
  - A trailing '.' is ignored for the same reason, so "1.2.3.4." and "1.2.3.4./8" are accepted.
  - Each octet goes through `Integer.parseInt`, so signed and zero-padded octets such as "+1", "-0" and "001" are accepted.
- **IPv4-mapped literals:** `ipToBytes` is documented as converting an IPv6 string (`IPv6RadixTree.java:142-147`). An IPv4-mapped IPv6 literal such as "::ffff:1.2.3.4" is nevertheless not evaluated as a 128-bit address. `InetAddress` returns it as a 4-byte address, and `ipToBytes` rejects anything that is not 16 bytes. The model keeps that rejection; which literals come back as 4 bytes is up to the platform parser.

## Left out

- **Platform IPv6 parser:** `InetAddress.getByName` is not part of this model. It is the parameter `parse: string -> Option<seq<Byte>>`, and only the 16-byte check made on its result is modelled.
- **Object identity:** the Java classes are mutable objects; here every operation returns a new value. This leaves out:
  - the aliasing between a `Builder` and the `IpRanges` that `build()` returns (later builder calls keep changing that same instance);
  - the `return this` chaining.
- **Read-only list view:** `Collections.unmodifiableList` is modelled as the immutable history sequence. The `UnsupportedOperationException` on writes through the view is not modelled.
- **Null arguments:** a `null` collection or byte array, which causes a `NullPointerException`, is not modelled. `null` strings are modelled as `None`.
- **Exception types:**
  - The model keeps the checks apart as error kinds, where Java throws `IllegalArgumentException` and its subclass `NumberFormatException`.
  - `Results.IndexOutOfBounds` stands for `ArrayIndexOutOfBoundsException`.
- **Nodes left after an overlong IPv6 walk:** `Ipv6RadixTree.AddRangeBytes` discards the unmarked nodes that the Java walk creates before it throws for a length above 128. Those nodes never change an answer.
- **Unicode digits:** `Text.ParseInt` accepts ASCII digits only. `Integer.parseInt` also accepts other Unicode decimal digits.
- **Regular expressions:** `Text.Split` models `split` for a single literal separator character only, which is all the library uses. General regular-expression patterns are not modelled.
- Ipv4RadixTree.AddRangeBits: takes the loop bound `32 - prefixLength` as an exact integer. In Java it is `int` arithmetic, which wraps for a length from `Integer.MIN_VALUE` to `Integer.MIN_VALUE + 32`. There the bound becomes a large negative number or `Integer.MIN_VALUE`, and the loop walks about 2^31 bits (exhausting memory) or never ends, without marking the root. The model marks the root for those lengths instead. `Ipv4RadixTree.NegativePrefixContainsAll` is stated only above that range. IPv6 is unaffected, since its bound `i < prefixLength` does no subtraction.
- **Fixed-width integers:** integers are unbounded. A prefix length beyond the `int` range cannot occur in Java and is not excluded here. Memory exhaustion from a huge length passed to the numeric overloads is not modelled.
- **Concurrency and performance:** thread safety and the memory footprint of the trees are not modelled. The constant-time lookup is stated only as the bound on inspected bit positions (`PrefixTrie.Contains`, `Ipv6RadixTree.ContainsWalk`).
- **`getRanges` and `build()`:** `IpRanges.GetRanges` and `IpRanges.Build` return the stored value and carry no contract of their own. They are covered by `IpRanges.CopyIsEquivalent`, `IpRanges.FromCollection` and `IpRanges.BuilderIsCollection`.
