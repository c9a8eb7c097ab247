/** `IPv4RadixTree`: the prefix trie keyed by the 32 low bits of a long, with
    the textual entry points that parse "a.b.c.d/n" and "a.b.c.d".
 */
module Ipv4RadixTree {
  import opened Results
  import opened BitKey
  import opened Text
  import PrefixTrie

  const Width: nat := 32

  /** 2^32: one more than the largest address. */
  const AddressSpace: nat := 0x1_0000_0000

  /** A Java `long`. */
  type Long = x: int | -0x8000_0000_0000_0000 <= x < 0x8000_0000_0000_0000

  /** A parsed "a.b.c.d/n": the address as an unsigned 32-bit value and the
      prefix length. */
  datatype Range = Range(ip: int, prefixLength: nat)

  /** The bits the tree walks for `ip`: `(ip >> i) & 1` for i = 31 down to 0. */
  function Key(ip: int): (k: seq<bool>)
    ensures |k| == Width
  {
    seq(Width, j requires 0 <= j < Width => TestBit(ip, Width - 1 - j))
  }

  /** `(ip >> i) & 1` for any int i: Java keeps only the six low bits of the
      shift count of a `long`, so i = -1 reads bit 63. */
  predicate ShiftBit(ip: Long, i: int) {
    TestBit(ip, i % 64)
  }

  /** The path `addRange(long, int)` walks: one bit per loop round, for
      i = 31 down to 32 - n. */
  function Path(ip: Long, prefixLength: int): (p: seq<bool>)
    ensures |p| == Iterations(prefixLength)
  {
    seq(Iterations(prefixLength), j requires 0 <= j < Iterations(prefixLength) => ShiftBit(ip, Width - 1 - j))
  }

  /** `ip` and `x` agree on bits 31 down to 32 - n. */
  predicate SameTopBits(ip: int, x: int, n: nat)
    requires n <= Width
  {
    forall i :: Width - n <= i < Width ==> TestBit(ip, i) == TestBit(x, i)
  }

  /** The addresses a range of `prefixLength` bits at `ip` covers. A negative
      length marks the root and covers every address; a length above 32 marks
      a node deeper than `contains` ever walks and covers none. */
  predicate InRange(ip: Long, prefixLength: int, x: int) {
    Iterations(prefixLength) <= Width && SameTopBits(ip, x, Iterations(prefixLength))
  }

  // ---------------------------------------------------------------------
  // Numeric entry points

  /** `addRange(long, int)`: walk bits 31 down to 32 - n, creating missing
      nodes, then mark. No argument is rejected. Afterwards an address is
      contained exactly when it was before or the range covers it.
      The loop bound is taken as the exact integer 32 - n. In Java it is an
      `int`, which wraps for n <= `Integer.MIN_VALUE + 32`; those lengths
      are outside this model (see the README). */
  function AddRangeBits(t: PrefixTrie.Trie, ip: Long, prefixLength: int): (r: PrefixTrie.Trie)
    ensures PrefixTrie.Stored(r) == PrefixTrie.Stored(t) + {Path(ip, prefixLength)}
    ensures forall x :: PrefixTrie.Lookup(r, Key(x)) <==>
                          PrefixTrie.Lookup(t, Key(x)) || InRange(ip, prefixLength, x)
  {
    var p := Path(ip, prefixLength);
    var r := PrefixTrie.Insert(t, p);
    forall x
      ensures PrefixTrie.Lookup(r, Key(x)) <==> PrefixTrie.Lookup(t, Key(x)) || InRange(ip, prefixLength, x)
    {
      PrefixTrie.LookupInsert(t, p, Key(x));
      if |p| <= Width {
        PathIsKeyPrefix(ip, |p|);
        KeyPrefix(ip, x, |p|);
      }
    }
    r
  }

  /** `contains(long)`: some stored prefix is a prefix of the key. */
  predicate Contains(t: PrefixTrie.Trie, ip: Long)
    ensures Contains(t, ip) <==> PrefixTrie.Covered(PrefixTrie.Stored(t), Key(ip))
  {
    PrefixTrie.LookupRefines(t, Key(ip));
    PrefixTrie.Lookup(t, Key(ip))
  }

  // ---------------------------------------------------------------------
  // Text

  /** Parse the four octets in order; the first field that is not a number,
      or is a number outside [0, 255], decides the error. */
  function ParseOctets(fields: seq<string>): (r: Result<seq<Byte>>)
    ensures r.Ok? <==> forall i :: 0 <= i < |fields| ==> IsOctetText(fields[i])
    ensures r.Ok? ==> |r.value| == |fields|
    ensures r.Ok? ==> forall i :: 0 <= i < |fields| ==> ParseInt(fields[i]) == Some(r.value[i])
  {
    if |fields| == 0 then Ok([])
    else
      match ParseInt(fields[0])
      case None => Err(InvalidNumber)
      case Some(v) =>
        if v < 0 || v > 255 then Err(InvalidAddress)
        else
          match ParseOctets(fields[1..])
          case Err(e) => Err(e)
          case Ok(rest) =>
            assert forall i :: 1 <= i < |fields| ==> fields[i] == fields[1..][i - 1];
            Ok([v] + rest)
  }

  predicate IsOctetText(s: string) {
    ParseInt(s).Some? && 0 <= ParseInt(s).value <= 255
  }

  /** `ipToLong`: exactly four dot-separated fields, each an octet, folded
      most significant first; the result is an unsigned 32-bit value. */
  function IpToLong(s: string): (r: Result<int>)
    ensures r.Ok? ==> 0 <= r.value < AddressSpace
  {
    var fields := Split(s, '.');
    if |fields| != 4 then Err(InvalidAddress)
    else
      var os :- ParseOctets(fields);
      Pow2Is32();
      Ok(BigEndian(os))
  }

  /** `ipToLong` accepts exactly four fields that all read as octets, and its
      value is theirs, read big-endian; otherwise it reports the first
      failing check. */
  lemma IpToLongAccepts(s: string)
    ensures IpToLong(s).Ok? <==>
              |Split(s, '.')| == 4 && forall i :: 0 <= i < 4 ==> IsOctetText(Split(s, '.')[i])
    ensures |Split(s, '.')| != 4 ==> IpToLong(s) == Err(InvalidAddress)
    ensures IpToLong(s).Ok? ==>
              exists os: seq<Byte> :: |os| == 4 && IpToLong(s).value == BigEndian(os) &&
                forall i :: 0 <= i < 4 ==> ParseInt(Split(s, '.')[i]) == Some(os[i])
  {
    if IpToLong(s).Ok? {
      var os := ParseOctets(Split(s, '.')).value;
      assert IpToLong(s).value == BigEndian(os);
    }
  }

  /** `addRange(String)` up to the tree walk: split on '/', parse the address,
      parse the prefix length, check it, in that order. */
  function ParseCidr(cidr: string): (r: Result<Range>)
    ensures r.Ok? ==> 0 <= r.value.ip < AddressSpace && r.value.prefixLength <= Width
  {
    var parts := Split(cidr, '/');
    if |parts| != 2 then Err(InvalidCidrFormat)
    else
      var ip :- IpToLong(parts[0]);
      match ParseInt(parts[1])
      case None => Err(InvalidNumber)
      case Some(n) =>
        if n < 0 || n > Width as int then Err(InvalidPrefixLength)
        else Ok(Range(ip, n))
  }

  /** The checks of `addRange(String)`, in the order they fire: the field
      count, then the address, then the prefix length; all of them before the
      tree is touched. */
  lemma ParseCidrChecks(cidr: string)
    ensures |Split(cidr, '/')| != 2 ==> ParseCidr(cidr) == Err(InvalidCidrFormat)
    ensures |Split(cidr, '/')| == 2 && IpToLong(Split(cidr, '/')[0]).Err? ==>
              ParseCidr(cidr) == Err(IpToLong(Split(cidr, '/')[0]).error)
    ensures |Split(cidr, '/')| == 2 && IpToLong(Split(cidr, '/')[0]).Ok? &&
            ParseInt(Split(cidr, '/')[1]).Some? && !(0 <= ParseInt(Split(cidr, '/')[1]).value <= Width) ==>
              ParseCidr(cidr) == Err(InvalidPrefixLength)
    ensures |Split(cidr, '/')| == 2 && IpToLong(Split(cidr, '/')[0]).Ok? &&
            ParseInt(Split(cidr, '/')[1]).None? ==>
              ParseCidr(cidr) == Err(InvalidNumber)
    ensures ParseCidr(cidr).Ok? ==>
              IpToLong(Split(cidr, '/')[0]) == Ok(ParseCidr(cidr).value.ip) &&
              ParseInt(Split(cidr, '/')[1]) == Some(ParseCidr(cidr).value.prefixLength)
  {
  }

  /** A '/' at the end of the text is ignored, because `split` drops the
      empty field after it: "addr/n/" is read as "addr/n". */
  lemma TrailingSlashIgnored(cidr: string)
    requires cidr != ""
    ensures ParseCidr(cidr + "/") == ParseCidr(cidr)
  {
    SplitSnoc(cidr, '/');
  }

  /** `addRange(String)`: a malformed CIDR leaves nothing changed; a good one
      is inserted. */
  function AddRange(t: PrefixTrie.Trie, cidr: string): (r: Result<PrefixTrie.Trie>)
    ensures r.Ok? <==> ParseCidr(cidr).Ok?
    ensures r.Err? ==> r.error == ParseCidr(cidr).error
    ensures r.Ok? ==>
              var range := ParseCidr(cidr).value;
              PrefixTrie.Stored(r.value) == PrefixTrie.Stored(t) + {Key(range.ip)[..range.prefixLength]}
  {
    var range :- ParseCidr(cidr);
    PathIsKeyPrefix(range.ip, range.prefixLength);
    Ok(AddRangeBits(t, range.ip, range.prefixLength))
  }

  /** `contains(String)`: parse the address, then look it up. */
  function ContainsText(t: PrefixTrie.Trie, ip: string): (r: Result<bool>)
    ensures r.Ok? <==> IpToLong(ip).Ok?
    ensures r.Err? ==> r.error == IpToLong(ip).error
    ensures r.Ok? ==> (r.value <==> PrefixTrie.Covered(PrefixTrie.Stored(t), Key(IpToLong(ip).value)))
  {
    var v :- IpToLong(ip);
    Ok(Contains(t, v))
  }

  // ---------------------------------------------------------------------
  // Keys

  lemma Pow2Is32()
    ensures Pow2(Width) == AddressSpace
  {
    assert Pow2(8) == 256;
    Pow2Add(8, 8);
    assert Pow2(16) == 0x1_0000;
    Pow2Add(16, 16);
  }

  /** For a length of 0 to 32 the path is the first bits of the key. */
  lemma PathIsKeyPrefix(ip: Long, n: nat)
    requires n <= Width
    ensures Path(ip, n) == Key(ip)[..n]
  {
    forall j | 0 <= j < n
      ensures Path(ip, n)[j] == Key(ip)[j]
    {
      assert Path(ip, n)[j] == ShiftBit(ip, Width - 1 - j);
      assert (Width - 1 - j) % 64 == Width - 1 - j;
    }
    assert |Path(ip, n)| == n;
  }

  /** The walk reads the long's 32 low bits most significant first. */
  lemma KeyIsBigEndian(ip: int)
    ensures Key(ip) == ToBits(ip, Width)
  {
    var k, bs := Key(ip), ToBits(ip, Width);
    forall j | 0 <= j < Width
      ensures k[j] == bs[j]
    {
      assert k[j] == TestBit(ip, Width - 1 - j);
      ToBitsIndex(ip, Width, j);
    }
    assert |k| == |bs|;
  }

  /** Distinct addresses have distinct keys. */
  lemma KeyInjective(a: int, b: int)
    requires 0 <= a < AddressSpace && 0 <= b < AddressSpace
    requires Key(a) == Key(b)
    ensures a == b
  {
    Pow2Is32();
    KeyIsBigEndian(a);
    KeyIsBigEndian(b);
    ToBitsInjective(a, b, Width);
  }

  /** The long built from four octets is walked bit by bit exactly as
      `getBit` walks the same four octets as a byte array. */
  lemma KeyOfOctets(os: seq<Byte>)
    requires |os| == 4
    ensures Key(BigEndian(os)) == BytesKey(os)
  {
    KeyIsBigEndian(BigEndian(os));
    BytesKeyIsBigEndian(os);
  }

  /** A stored prefix covers a key exactly when the two addresses agree on
      the prefix's bits. */
  lemma KeyPrefix(ip: int, x: int, n: nat)
    requires n <= Width
    ensures Key(ip)[..n] <= Key(x) <==> SameTopBits(ip, x, n)
  {
    var p, k := Key(ip)[..n], Key(x);
    if p <= k {
      forall i | Width - n <= i < Width
        ensures TestBit(ip, i) == TestBit(x, i)
      {
        var j := Width - 1 - i;
        assert p[j] == k[j];
      }
    }
    if SameTopBits(ip, x, n) {
      assert forall j :: 0 <= j < n ==> p[j] == k[j] by {
        forall j | 0 <= j < n
          ensures p[j] == k[j]
        {
          assert Width - n <= Width - 1 - j < Width;
        }
      }
      assert p == k[..n];
    }
  }

  // ---------------------------------------------------------------------
  // Formatting, the partner of the parsers

  function FormatAddress(os: seq<Byte>): string
    requires |os| == 4
  {
    Join(seq(4, i requires 0 <= i < 4 => Decimal(os[i])), '.')
  }

  function FormatCidr(os: seq<Byte>, prefixLength: nat): string
    requires |os| == 4
  {
    Join([FormatAddress(os), Decimal(prefixLength)], '/')
  }

  lemma DecimalHasNo(n: nat, c: char)
    requires !IsDigit(c)
    ensures c !in Decimal(n) && Decimal(n) != ""
  {
  }

  /** `ipToLong` reads the dotted-decimal form of four octets back as their
      big-endian value. */
  lemma IpToLongOfFormat(os: seq<Byte>)
    requires |os| == 4
    ensures IpToLong(FormatAddress(os)) == Ok(BigEndian(os))
  {
    var parts := seq(4, i requires 0 <= i < 4 => Decimal(os[i]));
    forall i | 0 <= i < 4
      ensures '.' !in parts[i] && parts[i] != "" && ParseInt(parts[i]) == Some(os[i])
    {
      DecimalHasNo(os[i], '.');
      ParseDecimal(os[i]);
    }
    SplitOfJoin(parts, '.');
    var r := ParseOctets(parts);
    assert r.Ok?;
    assert r.value == os;
  }

  /** `addRange(String)` reads "a.b.c.d/n" back as the octets' value and n. */
  lemma ParseCidrOfFormat(os: seq<Byte>, prefixLength: nat)
    requires |os| == 4 && prefixLength <= Width
    ensures ParseCidr(FormatCidr(os, prefixLength)) == Ok(Range(BigEndian(os), prefixLength))
  {
    var address, n := FormatAddress(os), Decimal(prefixLength);
    var cidr := FormatCidr(os, prefixLength);
    FormatAddressHasNoSlash(os);
    DecimalHasNo(prefixLength, '/');
    SplitOfJoin([address, n], '/');
    assert Split(cidr, '/') == [address, n];
    IpToLongOfFormat(os);
    ParseDecimal(prefixLength);
    ParseCidrOfParts(cidr, BigEndian(os), prefixLength);
  }

  lemma ParseCidrOfParts(cidr: string, ip: int, prefixLength: nat)
    requires |Split(cidr, '/')| == 2
    requires IpToLong(Split(cidr, '/')[0]) == Ok(ip)
    requires ParseInt(Split(cidr, '/')[1]) == Some(prefixLength) && prefixLength <= Width
    ensures ParseCidr(cidr) == Ok(Range(ip, prefixLength))
  {
  }

  lemma FormatAddressHasNoSlash(os: seq<Byte>)
    requires |os| == 4
    ensures '/' !in FormatAddress(os) && FormatAddress(os) != ""
  {
    var octets := seq(4, i requires 0 <= i < 4 => Decimal(os[i]));
    forall i | 0 <= i < 4
      ensures '/' !in octets[i]
    {
      DecimalHasNo(os[i], '/');
    }
    JoinHasNo(octets, '.', '/');
    assert |FormatAddress(os)| >= |octets[0]| >= 1;
  }

  lemma {:induction false} JoinHasNo(parts: seq<string>, sep: char, c: char)
    requires |parts| >= 1 && sep != c
    requires forall i :: 0 <= i < |parts| ==> c !in parts[i]
    ensures c !in Join(parts, sep)
    decreases |parts|
  {
    if |parts| > 1 {
      JoinHasNo(parts[1..], sep, c);
    }
  }

  // ---------------------------------------------------------------------
  // Properties the tests exercise

  /** A '.' at the end of an IPv4 literal is ignored, because `split` drops
      the empty field after it: "1.2.3.4." is read as "1.2.3.4". */
  lemma TrailingDotIgnored(s: string)
    requires s != ""
    ensures IpToLong(s + ".") == IpToLong(s)
  {
    SplitSnoc(s, '.');
  }

  /** "0.0.0.0/0" marks the root: every address is contained. */
  lemma ZeroPrefixContainsAll(t: PrefixTrie.Trie, ip: Long, x: Long)
    ensures Contains(AddRangeBits(t, ip, 0), x)
  {
  }

  /** A negative length passed to `addRange(long, int)` skips the loop and
      marks the root, so every address is contained afterwards. Only lengths
      above `Integer.MIN_VALUE + 32` qualify: for the others the `int`
      subtraction `32 - prefixLength` wraps and the Java loop does not end
      normally (see `AddRangeBits`). */
  lemma NegativePrefixContainsAll(t: PrefixTrie.Trie, ip: Long, prefixLength: int, x: Long)
    requires IntMin + Width < prefixLength < 0
    ensures Contains(AddRangeBits(t, ip, prefixLength), x)
  {
  }

  /** A length above 32 passed to `addRange(long, int)` changes no answer of
      `contains`: the marked node lies below the 32 levels the lookup walks. */
  lemma OverlongPrefixChangesNothing(t: PrefixTrie.Trie, ip: Long, prefixLength: int, x: Long)
    requires prefixLength > Width
    ensures Contains(AddRangeBits(t, ip, prefixLength), x) == Contains(t, x)
  {
  }

  /** A /32 range in an empty tree contains its own address and no other. */
  lemma FullPrefixExact(a: int, x: int)
    requires 0 <= a < AddressSpace && 0 <= x < AddressSpace
    ensures Contains(AddRangeBits(PrefixTrie.Empty(), a, Width), x) <==> a == x
  {
    PathIsKeyPrefix(a, Width);
    PrefixTrie.InsertFullKeyExact(Key(a), Key(x));
    assert Key(a)[..Width] == Key(a);
    if Key(a) == Key(x) {
      KeyInjective(a, x);
    }
  }

  /** An empty tree contains no address. */
  lemma EmptyContainsNothing(x: Long)
    ensures !Contains(PrefixTrie.Empty(), x)
  {
    PrefixTrie.EmptyContainsNothing(Key(x));
  }
}
