/** `IPv6RadixTree`: the prefix trie keyed by the 128 bits of a 16-byte array,
    read with `getBit`, with the textual entry points for "addr/n" and "addr".

    Turning IPv6 text into bytes is done by `InetAddress.getByName`, which is
    not part of this model: it is the parameter `parse`, any function from text
    to an optional byte array. The model keeps the one check the library adds
    on top of it: the array must be 16 bytes long (an IPv4-mapped literal comes
    back from `InetAddress` as a 4-byte address and is rejected).
 */
module Ipv6RadixTree {
  import opened Results
  import opened BitKey
  import opened Text
  import PrefixTrie

  const Width: nat := 128
  const AddressBytes: nat := 16

  /** The address parser of the platform, as seen by `ipToBytes`. */
  type AddressParser = string -> Option<seq<Byte>>

  /** A parsed "addr/n". */
  datatype Range = Range(ip: seq<Byte>, prefixLength: nat)

  /** `ip` and `x` agree on `getBit` positions 0 to n - 1. */
  predicate SamePrefix(ip: seq<Byte>, x: seq<Byte>, n: nat)
    requires |ip| == AddressBytes && |x| == AddressBytes && n <= Width
  {
    forall i :: 0 <= i < n ==> GetBit(ip, i) == GetBit(x, i)
  }

  // ---------------------------------------------------------------------
  // Byte-array entry points

  /** `addRange(byte[], int)`: reject an array that is not 16 bytes long,
      otherwise walk bits 0 to n - 1 and mark. A length above 128 makes the
      walk read bit 128, past the end of the array; a negative one skips the
      walk and marks the root. Afterwards every address that shares the first
      n bits with `ip` is contained, every other answers as before. */
  function AddRangeBytes(t: PrefixTrie.Trie, ip: seq<Byte>, prefixLength: int): (r: Result<PrefixTrie.Trie>)
    ensures r.Ok? <==> |ip| == AddressBytes && prefixLength <= Width
    ensures |ip| != AddressBytes ==> r == Err(InvalidKeyLength)
    ensures |ip| == AddressBytes && prefixLength > Width ==> r == Err(IndexOutOfBounds)
    ensures r.Ok? ==>
              PrefixTrie.Stored(r.value) == PrefixTrie.Stored(t) + {BytesKey(ip)[..Iterations(prefixLength)]}
    ensures r.Ok? ==> forall x :: |x| == AddressBytes ==>
              (PrefixTrie.Lookup(r.value, BytesKey(x)) <==>
                 PrefixTrie.Lookup(t, BytesKey(x)) || SamePrefix(ip, x, Iterations(prefixLength)))
  {
    if |ip| != AddressBytes then Err(InvalidKeyLength)
    else if prefixLength > Width then Err(IndexOutOfBounds)
    else
      var n := Iterations(prefixLength);
      var p := BytesKey(ip)[..n];
      var r := PrefixTrie.Insert(t, p);
      forall x | |x| == AddressBytes
        ensures PrefixTrie.Lookup(r, BytesKey(x)) <==>
                  PrefixTrie.Lookup(t, BytesKey(x)) || SamePrefix(ip, x, n)
      {
        PrefixTrie.LookupInsert(t, p, BytesKey(x));
        KeyPrefix(ip, x, n);
      }
      Ok(r)
  }

  /** `contains(byte[])`: reject an array that is not 16 bytes long,
      otherwise report whether some stored prefix covers the key. */
  function ContainsBytes(t: PrefixTrie.Trie, ip: seq<Byte>): (r: Result<bool>)
    ensures r.Ok? <==> |ip| == AddressBytes
    ensures r.Err? ==> r.error == InvalidKeyLength
    ensures r.Ok? ==> (r.value <==> PrefixTrie.Covered(PrefixTrie.Stored(t), BytesKey(ip)))
  {
    if |ip| != AddressBytes then Err(InvalidKeyLength)
    else
      PrefixTrie.LookupRefines(t, BytesKey(ip));
      Ok(PrefixTrie.Lookup(t, BytesKey(ip)))
  }

  /** The lookup loop of `contains(byte[])`: its answer is `ContainsBytes`'s,
      and it reads at most 128 bit positions however many ranges are stored. */
  method ContainsWalk(t: PrefixTrie.Trie, ip: seq<Byte>) returns (r: Result<bool>, inspected: nat)
    ensures r == ContainsBytes(t, ip)
    ensures inspected <= Width
  {
    if |ip| != AddressBytes {
      return Err(InvalidKeyLength), 0;
    }
    var found;
    found, inspected := PrefixTrie.Contains(t, BytesKey(ip));
    r := Ok(found);
  }

  // ---------------------------------------------------------------------
  // Text

  /** `ipToBytes`: the platform parser must succeed and yield 16 bytes. */
  function IpToBytes(s: string, parse: AddressParser): (r: Result<seq<Byte>>)
    ensures r.Ok? <==> parse(s).Some? && |parse(s).value| == AddressBytes
    ensures r.Ok? ==> r.value == parse(s).value
    ensures r.Err? ==> r.error == InvalidAddress
  {
    match parse(s)
    case None => Err(InvalidAddress)
    case Some(bytes) =>
      if |bytes| != AddressBytes then Err(InvalidAddress) else Ok(bytes)
  }

  /** `addRange(String)` up to the tree walk: split on '/', convert the
      address, parse the prefix length, check it, in that order. */
  function ParseCidr(cidr: string, parse: AddressParser): (r: Result<Range>)
    ensures r.Ok? ==> |r.value.ip| == AddressBytes && r.value.prefixLength <= Width
  {
    var parts := Split(cidr, '/');
    if |parts| != 2 then Err(InvalidCidrFormat)
    else
      var ip :- IpToBytes(parts[0], parse);
      match ParseInt(parts[1])
      case None => Err(InvalidNumber)
      case Some(n) =>
        if n < 0 || n > Width as int then Err(InvalidPrefixLength)
        else Ok(Range(ip, n))
  }

  /** The checks of `addRange(String)`, in the order they fire: the field
      count, then the address, then the prefix length; all of them before the
      tree is touched. */
  lemma ParseCidrChecks(cidr: string, parse: AddressParser)
    ensures |Split(cidr, '/')| != 2 ==> ParseCidr(cidr, parse) == Err(InvalidCidrFormat)
    ensures |Split(cidr, '/')| == 2 && IpToBytes(Split(cidr, '/')[0], parse).Err? ==>
              ParseCidr(cidr, parse) == Err(InvalidAddress)
    ensures |Split(cidr, '/')| == 2 && IpToBytes(Split(cidr, '/')[0], parse).Ok? &&
            ParseInt(Split(cidr, '/')[1]).Some? && !(0 <= ParseInt(Split(cidr, '/')[1]).value <= Width) ==>
              ParseCidr(cidr, parse) == Err(InvalidPrefixLength)
    ensures |Split(cidr, '/')| == 2 && IpToBytes(Split(cidr, '/')[0], parse).Ok? &&
            ParseInt(Split(cidr, '/')[1]).None? ==>
              ParseCidr(cidr, parse) == Err(InvalidNumber)
    ensures ParseCidr(cidr, parse).Ok? ==>
              IpToBytes(Split(cidr, '/')[0], parse) == Ok(ParseCidr(cidr, parse).value.ip) &&
              ParseInt(Split(cidr, '/')[1]) == Some(ParseCidr(cidr, parse).value.prefixLength)
  {
  }

  /** A '/' at the end of the text is ignored, because `split` drops the
      empty field after it: "addr/n/" is read as "addr/n". */
  lemma TrailingSlashIgnored(cidr: string, parse: AddressParser)
    requires cidr != ""
    ensures ParseCidr(cidr + "/", parse) == ParseCidr(cidr, parse)
  {
    SplitSnoc(cidr, '/');
  }

  /** `addRange(String)`: a malformed CIDR leaves nothing changed; a good one
      is inserted. */
  function AddRange(t: PrefixTrie.Trie, cidr: string, parse: AddressParser): (r: Result<PrefixTrie.Trie>)
    ensures r.Ok? <==> ParseCidr(cidr, parse).Ok?
    ensures r.Err? ==> r.error == ParseCidr(cidr, parse).error
    ensures r.Ok? ==>
              var range := ParseCidr(cidr, parse).value;
              PrefixTrie.Stored(r.value) == PrefixTrie.Stored(t) + {BytesKey(range.ip)[..range.prefixLength]}
  {
    var range :- ParseCidr(cidr, parse);
    AddRangeBytes(t, range.ip, range.prefixLength)
  }

  /** `contains(String)`: convert the address, then look it up. */
  function ContainsText(t: PrefixTrie.Trie, ip: string, parse: AddressParser): (r: Result<bool>)
    ensures r.Ok? <==> IpToBytes(ip, parse).Ok?
    ensures r.Err? ==> r.error == InvalidAddress
    ensures r.Ok? ==> (r.value <==> PrefixTrie.Covered(PrefixTrie.Stored(t), BytesKey(IpToBytes(ip, parse).value)))
  {
    var bytes :- IpToBytes(ip, parse);
    ContainsBytes(t, bytes)
  }

  // ---------------------------------------------------------------------
  // Keys

  /** A stored prefix covers a key exactly when the two addresses share the
      prefix's bits. */
  lemma KeyPrefix(ip: seq<Byte>, x: seq<Byte>, n: nat)
    requires |ip| == AddressBytes && |x| == AddressBytes && n <= Width
    ensures BytesKey(ip)[..n] <= BytesKey(x) <==> SamePrefix(ip, x, n)
  {
    var p, k := BytesKey(ip)[..n], BytesKey(x);
    if SamePrefix(ip, x, n) {
      assert p == k[..n];
    }
    if p <= k {
      forall i | 0 <= i < n
        ensures GetBit(ip, i) == GetBit(x, i)
      {
        assert p[i] == k[i];
      }
    }
  }

  // ---------------------------------------------------------------------
  // Formatting, the partner of the CIDR parser

  /** `addRange(String)` reads "addr/n" back as the platform's bytes for
      `addr` and n, whenever the platform reads `addr` as 16 bytes. */
  lemma ParseCidrOfFormat(address: string, ip: seq<Byte>, prefixLength: nat, parse: AddressParser)
    requires address != "" && '/' !in address
    requires parse(address) == Some(ip) && |ip| == AddressBytes
    requires prefixLength <= Width
    ensures ParseCidr(address + "/" + Decimal(prefixLength), parse) == Ok(Range(ip, prefixLength))
  {
    var parts := [address, Decimal(prefixLength)];
    assert '/' !in Decimal(prefixLength);
    SplitOfJoin(parts, '/');
    assert Join(parts, '/') == address + "/" + Decimal(prefixLength);
    ParseDecimal(prefixLength);
  }

  // ---------------------------------------------------------------------
  // Properties the tests exercise

  /** "::/0" marks the root: every 16-byte address is contained. */
  lemma ZeroPrefixContainsAll(t: PrefixTrie.Trie, ip: seq<Byte>, x: seq<Byte>)
    requires |ip| == AddressBytes && |x| == AddressBytes
    ensures ContainsBytes(AddRangeBytes(t, ip, 0).value, x) == Ok(true)
  {
  }

  /** A negative length passed to `addRange(byte[], int)` skips the walk and
      marks the root, so every 16-byte address is contained afterwards. */
  lemma NegativePrefixContainsAll(t: PrefixTrie.Trie, ip: seq<Byte>, prefixLength: int, x: seq<Byte>)
    requires |ip| == AddressBytes && |x| == AddressBytes && prefixLength < 0
    ensures ContainsBytes(AddRangeBytes(t, ip, prefixLength).value, x) == Ok(true)
  {
  }

  /** A /128 range in an empty tree contains its own address and no other. */
  lemma FullPrefixExact(ip: seq<Byte>, x: seq<Byte>)
    requires |ip| == AddressBytes && |x| == AddressBytes
    ensures ContainsBytes(AddRangeBytes(PrefixTrie.Empty(), ip, Width).value, x) == Ok(ip == x)
  {
    PrefixTrie.InsertFullKeyExact(BytesKey(ip), BytesKey(x));
    PrefixTrie.LookupRefines(AddRangeBytes(PrefixTrie.Empty(), ip, Width).value, BytesKey(x));
    assert BytesKey(ip)[..Width] == BytesKey(ip);
    if BytesKey(ip) == BytesKey(x) {
      BytesKeyInjective(ip, x);
    }
  }

  /** An empty tree contains no address. */
  lemma EmptyContainsNothing(x: seq<Byte>)
    requires |x| == AddressBytes
    ensures ContainsBytes(PrefixTrie.Empty(), x) == Ok(false)
  {
  }
}
