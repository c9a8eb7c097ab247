/** `IpRanges`: the dual-stack range set. It owns one IPv4 tree, one IPv6
    tree and the list of CIDR strings added so far, in order and with
    duplicates.

    The Java object is mutable; here it is a value, and every mutating call
    returns the new value. A call that fails returns `Err` and the caller
    keeps the value it had, so a failed `addRange` changes neither tree nor
    history. Two values never share anything, so a copy and its original
    cannot affect one another.

    Central invariant (`Valid`): the two trees are exactly what replaying the
    history, in order, into fresh trees produces. Every way of obtaining a
    set (constructors, `addRange`, `addRanges`, the builder) keeps it, and
    the copy constructor's result equals its source because of it.
 */
module IpRanges {
  import opened Results
  import opened Text
  import opened BitKey
  import PrefixTrie
  import V4 = Ipv4RadixTree
  import V6 = Ipv6RadixTree

  datatype RangeSet = RangeSet(v4: PrefixTrie.Trie, v6: PrefixTrie.Trie, history: seq<string>)

  /** The outcome of adding several ranges: the set after the calls that
      succeeded, and the error of the first call that failed, if any. */
  datatype Batch = Batch(ranges: RangeSet, failure: Option<Error>)

  /** The one classification of a literal: a colon means IPv6. */
  predicate IsIpv6Text(s: string) {
    ':' in s
  }

  /** The empty constructor. */
  function New(): (r: RangeSet)
    ensures r.history == []
    ensures PrefixTrie.Stored(r.v4) == {} && PrefixTrie.Stored(r.v6) == {}
  {
    RangeSet(PrefixTrie.Empty(), PrefixTrie.Empty(), [])
  }

  /** `addRange`: reject null or blank input, hand the string to the tree of
      its family, and only when that succeeds append it to the history. */
  function AddRange(r: RangeSet, cidr: Option<string>, parse: V6.AddressParser): (res: Result<RangeSet>)
    ensures cidr.None? || IsBlank(cidr.value) ==> res == Err(InvalidArgument)
    ensures res.Ok? <==>
              cidr.Some? && !IsBlank(cidr.value) &&
              if IsIpv6Text(cidr.value) then V6.ParseCidr(cidr.value, parse).Ok?
              else V4.ParseCidr(cidr.value).Ok?
    ensures res.Ok? ==> res.value.history == r.history + [cidr.value]
    ensures res.Ok? && IsIpv6Text(cidr.value) ==> res.value.v4 == r.v4
    ensures res.Ok? && !IsIpv6Text(cidr.value) ==> res.value.v6 == r.v6
  {
    if cidr.None? || IsBlank(cidr.value) then Err(InvalidArgument)
    else if IsIpv6Text(cidr.value) then
      var t :- V6.AddRange(r.v6, cidr.value, parse);
      Ok(r.(v6 := t, history := r.history + [cidr.value]))
    else
      var t :- V4.AddRange(r.v4, cidr.value);
      Ok(r.(v4 := t, history := r.history + [cidr.value]))
  }

  // ---------------------------------------------------------------------
  // Walking a list of strings

  /** One `addRange` call as a value. The walks below, and the facts about
      them, hold for every step that appends its string to the history when
      it succeeds; `Adder` is the one the library uses. */
  type Step = (RangeSet, Option<string>) -> Result<RangeSet>

  ghost predicate Appends(step: Step) {
    forall s, c :: step(s, c).Ok? ==> c.Some? && step(s, c).value.history == s.history + [c.value]
  }

  function Adder(parse: V6.AddressParser): (step: Step)
    ensures Appends(step)
  {
    (s, c) => AddRange(s, c, parse)
  }

  lemma AdderApplies(parse: V6.AddressParser, s: RangeSet, c: Option<string>)
    ensures Adder(parse)(s, c) == AddRange(s, c, parse)
  {
  }

  /** The loop of `addRanges`: `step` on each element in order. The first
      failure stops the loop; the elements before it stay added. */
  function Walk(r: RangeSet, cidrs: seq<Option<string>>, step: Step): (b: Batch)
    requires Appends(step)
    ensures |r.history| <= |b.ranges.history| <= |r.history| + |cidrs|
    ensures b.ranges.history[..|r.history|] == r.history
    ensures forall i :: |r.history| <= i < |b.ranges.history| ==>
              cidrs[i - |r.history|] == Some(b.ranges.history[i])
    ensures b.failure.None? <==> |b.ranges.history| == |r.history| + |cidrs|
    decreases |cidrs|
  {
    if |cidrs| == 0 then Batch(r, None)
    else
      match step(r, cidrs[0])
      case Err(e) => Batch(r, Some(e))
      case Ok(next) =>
        var b := Walk(next, cidrs[1..], step);
        assert next.history == r.history + [cidrs[0].value];
        assert b.ranges.history[..|r.history|] == next.history[..|r.history|];
        assert forall i :: |r.history| <= i < |b.ranges.history| ==>
                 cidrs[i - |r.history|] == Some(b.ranges.history[i]) by {
          forall i | |r.history| <= i < |b.ranges.history|
            ensures cidrs[i - |r.history|] == Some(b.ranges.history[i])
          {
            if i == |r.history| {
              assert b.ranges.history[i] == next.history[i];
            } else {
              assert cidrs[i - |r.history|] == cidrs[1..][i - |next.history|];
            }
          }
        }
        b
  }

  /** A walk that stops early stops at the first element whose step fails,
      and with that step's error. */
  lemma {:induction false} WalkStops(r: RangeSet, cidrs: seq<Option<string>>, step: Step)
    requires Appends(step)
    ensures var b := Walk(r, cidrs, step);
            b.failure.Some? ==> step(b.ranges, cidrs[|b.ranges.history| - |r.history|]) == Err(b.failure.value)
    decreases |cidrs|
  {
    if |cidrs| > 0 && step(r, cidrs[0]).Ok? {
      var next := step(r, cidrs[0]).value;
      var b := Walk(next, cidrs[1..], step);
      assert Walk(r, cidrs, step) == b;
      WalkStops(next, cidrs[1..], step);
      if b.failure.Some? {
        var j := |b.ranges.history| - |next.history|;
        assert cidrs[1..][j] == cidrs[j + 1];
      }
    }
  }

  /** The walk over the part of the list before the point where it stopped
      is the same walk, without the failure. */
  lemma {:induction false} WalkPrefix(r: RangeSet, cidrs: seq<Option<string>>, k: nat, step: Step)
    requires Appends(step)
    requires k <= |cidrs|
    requires |Walk(r, cidrs, step).ranges.history| == |r.history| + k
    ensures Walk(r, cidrs[..k], step) == Batch(Walk(r, cidrs, step).ranges, None)
    decreases k
  {
    if k > 0 {
      var next := step(r, cidrs[0]);
      assert next.Ok?;
      assert cidrs[..k][1..] == cidrs[1..][..k - 1];
      WalkPrefix(next.value, cidrs[1..], k - 1, step);
    }
  }

  /** One more element after a walk that did not fail is one more step. */
  lemma {:induction false} WalkSnoc(r: RangeSet, cidrs: seq<Option<string>>, c: Option<string>, step: Step)
    requires Appends(step)
    requires Walk(r, cidrs, step).failure.None?
    ensures var s := Walk(r, cidrs, step).ranges;
            step(s, c).Ok? ==> Walk(r, cidrs + [c], step) == Batch(step(s, c).value, None)
    ensures var s := Walk(r, cidrs, step).ranges;
            step(s, c).Err? ==> Walk(r, cidrs + [c], step) == Batch(s, Some(step(s, c).error))
    decreases |cidrs|
  {
    if |cidrs| > 0 {
      var next := step(r, cidrs[0]);
      assert (cidrs + [c])[0] == cidrs[0];
      assert (cidrs + [c])[1..] == cidrs[1..] + [c];
      WalkSnoc(next.value, cidrs[1..], c, step);
    } else {
      assert cidrs + [c] == [c];
    }
  }

  /** `addRanges`: `addRange` on each element in order. The first failure
      stops the loop; the elements before it stay added, and the failure is
      the error of the element it stopped at. */
  function AddRanges(r: RangeSet, cidrs: seq<Option<string>>, parse: V6.AddressParser): (b: Batch)
    ensures |r.history| <= |b.ranges.history| <= |r.history| + |cidrs|
    ensures b.ranges.history[..|r.history|] == r.history
    ensures forall i :: |r.history| <= i < |b.ranges.history| ==>
              cidrs[i - |r.history|] == Some(b.ranges.history[i])
    ensures b.failure.None? <==> |b.ranges.history| == |r.history| + |cidrs|
    ensures b.failure.Some? ==>
              AddRange(b.ranges, cidrs[|b.ranges.history| - |r.history|], parse) == Err(b.failure.value)
  {
    var step := Adder(parse);
    WalkStops(r, cidrs, step);
    var b := Walk(r, cidrs, step);
    if b.failure.Some? then
      AdderApplies(parse, b.ranges, cidrs[|b.ranges.history| - |r.history|]);
      b
    else b
  }

  /** Every element before position k of `cidrs` is added without failure,
      and adding element k to the result then fails with `e`. */
  predicate FailsFirstAt(cidrs: seq<Option<string>>, k: nat, parse: V6.AddressParser, e: Error)
    requires k < |cidrs|
  {
    var before := AddRanges(New(), cidrs[..k], parse);
    before.failure.None? && AddRange(before.ranges, cidrs[k], parse) == Err(e)
  }

  /** The collection constructor: a fresh set, then `addRanges`. A failure
      leaves the caller without an object. */
  function FromCollection(cidrs: seq<Option<string>>, parse: V6.AddressParser): (res: Result<RangeSet>)
    ensures res.Ok? ==> |res.value.history| == |cidrs|
    ensures res.Ok? ==> forall i :: 0 <= i < |cidrs| ==> cidrs[i] == Some(res.value.history[i])
    ensures res.Ok? ==> Valid(res.value, parse)
    ensures res.Err? ==> exists k :: 0 <= k < |cidrs| && FailsFirstAt(cidrs, k, parse, res.error)
  {
    var b := AddRanges(New(), cidrs, parse);
    WalkKeepsReplay(New(), cidrs, Adder(parse));
    match b.failure
    case Some(e) =>
      var k := |b.ranges.history|;
      WalkPrefix(New(), cidrs, k, Adder(parse));
      var before := AddRanges(New(), cidrs[..k], parse);
      assert before.ranges == b.ranges && before.failure.None?;
      assert FailsFirstAt(cidrs, k, parse, e);
      Err(e)
    case None => Ok(b.ranges)
  }

  /** The copy constructor: a fresh set, then `addRange` on every string of
      the source's history, in order. */
  function Copy(source: RangeSet, parse: V6.AddressParser): (res: Result<RangeSet>)
    ensures Valid(source, parse) ==> res == Ok(source)
  {
    CopyIsSource(source, parse);
    FromCollection(Somes(source.history), parse)
  }

  /** `contains(String)`: reject null or blank input, then ask the tree of
      the literal's family. */
  function Contains(r: RangeSet, ip: Option<string>, parse: V6.AddressParser): (res: Result<bool>)
    ensures ip.None? || IsBlank(ip.value) ==> res == Err(InvalidArgument)
    ensures ip.Some? && !IsBlank(ip.value) && IsIpv6Text(ip.value) ==>
              res.Ok? == V6.IpToBytes(ip.value, parse).Ok? &&
              (res.Ok? ==> (res.value <==> PrefixTrie.Covered(PrefixTrie.Stored(r.v6), BytesKey(V6.IpToBytes(ip.value, parse).value))))
    ensures ip.Some? && !IsBlank(ip.value) && !IsIpv6Text(ip.value) ==>
              res.Ok? == V4.IpToLong(ip.value).Ok? &&
              (res.Ok? ==> (res.value <==> PrefixTrie.Covered(PrefixTrie.Stored(r.v4), V4.Key(V4.IpToLong(ip.value).value))))
  {
    if ip.None? || IsBlank(ip.value) then Err(InvalidArgument)
    else if IsIpv6Text(ip.value) then V6.ContainsText(r.v6, ip.value, parse)
    else V4.ContainsText(r.v4, ip.value)
  }

  /** `containsIPv4(long)`: straight to the IPv4 tree, no checks. */
  predicate ContainsIpv4(r: RangeSet, ip: V4.Long)
    ensures ContainsIpv4(r, ip) <==> PrefixTrie.Covered(PrefixTrie.Stored(r.v4), V4.Key(ip))
  {
    V4.Contains(r.v4, ip)
  }

  /** `containsIPv6(byte[])`: straight to the IPv6 tree, which itself rejects
      an array that is not 16 bytes long. */
  function ContainsIpv6(r: RangeSet, ip: seq<Byte>): (res: Result<bool>)
    ensures res.Ok? <==> |ip| == V6.AddressBytes
    ensures res.Err? ==> res.error == InvalidKeyLength
    ensures res.Ok? ==> (res.value <==> PrefixTrie.Covered(PrefixTrie.Stored(r.v6), BytesKey(ip)))
  {
    V6.ContainsBytes(r.v6, ip)
  }

  /** `getRanges`: the history, read-only. */
  function GetRanges(r: RangeSet): seq<string> {
    r.history
  }

  // ---------------------------------------------------------------------
  // Builder

  /** The builder owns one set and passes every call through to it. */
  datatype Builder = Builder(ranges: RangeSet)

  function NewBuilder(): (b: Builder)
    ensures forall parse :: Valid(Build(b), parse)
  {
    Builder(New())
  }

  function BuilderAddRange(b: Builder, cidr: Option<string>, parse: V6.AddressParser): (res: Result<Builder>)
    ensures res.Ok? <==> AddRange(Build(b), cidr, parse).Ok?
    ensures res.Ok? ==> Build(res.value) == AddRange(Build(b), cidr, parse).value
  {
    var s :- AddRange(b.ranges, cidr, parse);
    Ok(Builder(s))
  }

  function BuilderAddRanges(b: Builder, cidrs: seq<Option<string>>, parse: V6.AddressParser): (res: (Builder, Option<Error>))
    ensures Build(res.0) == AddRanges(Build(b), cidrs, parse).ranges
    ensures res.1 == AddRanges(Build(b), cidrs, parse).failure
  {
    var batch := AddRanges(b.ranges, cidrs, parse);
    (Builder(batch.ranges), batch.failure)
  }

  /** `build`: the set every builder call went to. */
  function Build(b: Builder): RangeSet {
    b.ranges
  }

  /** A fresh builder fed a list and built gives the set the collection
      constructor gives for that list, and fails with the same error. */
  lemma BuilderIsCollection(cidrs: seq<Option<string>>, parse: V6.AddressParser)
    ensures var (b, failure) := BuilderAddRanges(NewBuilder(), cidrs, parse);
            FromCollection(cidrs, parse) == if failure.None? then Ok(Build(b)) else Err(failure.value)
  {
  }

  /** Every builder call keeps the built set equal to its replayed history. */
  lemma BuilderKeepsValid(b: Builder, cidr: Option<string>, parse: V6.AddressParser)
    requires Valid(Build(b), parse)
    requires BuilderAddRange(b, cidr, parse).Ok?
    ensures Valid(Build(BuilderAddRange(b, cidr, parse).value), parse)
  {
    AddRangeKeepsValid(Build(b), cidr, parse);
  }

  // ---------------------------------------------------------------------
  // The replay invariant

  function Somes(h: seq<string>): (s: seq<Option<string>>)
    ensures |s| == |h| && forall i :: 0 <= i < |h| ==> s[i] == Some(h[i])
  {
    seq(|h|, i requires 0 <= i < |h| => Some(h[i]))
  }

  /** The history, replayed in order into a fresh set. */
  function Replay(h: seq<string>, step: Step): Result<RangeSet>
  {
    if |h| == 0 then Ok(New())
    else
      var r :- Replay(h[..|h| - 1], step);
      step(r, Some(h[|h| - 1]))
  }

  ghost predicate Valid(r: RangeSet, parse: V6.AddressParser) {
    Replay(r.history, Adder(parse)) == Ok(r)
  }

  /** A replay that succeeds records exactly the history it replayed. */
  lemma {:induction false} ReplayHistory(h: seq<string>, step: Step)
    requires Appends(step)
    requires Replay(h, step).Ok?
    ensures Replay(h, step).value.history == h
    decreases |h|
  {
    if |h| > 0 {
      ReplayHistory(h[..|h| - 1], step);
      assert h == h[..|h| - 1] + [h[|h| - 1]];
    }
  }

  /** A step that succeeds keeps a set equal to its replayed history. */
  lemma StepKeepsReplay(r: RangeSet, c: Option<string>, step: Step)
    requires Appends(step)
    requires Replay(r.history, step) == Ok(r)
    requires step(r, c).Ok?
    ensures Replay(step(r, c).value.history, step) == step(r, c)
  {
    var h := step(r, c).value.history;
    assert h[..|h| - 1] == r.history;
  }

  /** So does a whole walk, whether or not it stops early. */
  lemma {:induction false} WalkKeepsReplay(r: RangeSet, cidrs: seq<Option<string>>, step: Step)
    requires Appends(step)
    requires Replay(r.history, step) == Ok(r)
    ensures Replay(Walk(r, cidrs, step).ranges.history, step) == Ok(Walk(r, cidrs, step).ranges)
    decreases |cidrs|
  {
    if |cidrs| > 0 && step(r, cidrs[0]).Ok? {
      StepKeepsReplay(r, cidrs[0], step);
      WalkKeepsReplay(step(r, cidrs[0]).value, cidrs[1..], step);
    }
  }

  /** Replaying a history from the back is the walk over it from the front. */
  lemma {:induction false} ReplayIsWalk(h: seq<string>, step: Step)
    requires Appends(step)
    requires Replay(h, step).Ok?
    ensures Walk(New(), Somes(h), step) == Batch(Replay(h, step).value, None)
    decreases |h|
  {
    if |h| > 0 {
      var init, last := h[..|h| - 1], Some(h[|h| - 1]);
      ReplayIsWalk(init, step);
      assert Somes(h) == Somes(init) + [last];
      WalkSnoc(New(), Somes(init), last, step);
    }
  }

  lemma NewIsValid(parse: V6.AddressParser)
    ensures Valid(New(), parse)
  {
  }

  /** A successful `addRange` keeps the trees equal to the replayed history. */
  lemma AddRangeKeepsValid(r: RangeSet, cidr: Option<string>, parse: V6.AddressParser)
    requires Valid(r, parse)
    requires AddRange(r, cidr, parse).Ok?
    ensures Valid(AddRange(r, cidr, parse).value, parse)
  {
    StepKeepsReplay(r, cidr, Adder(parse));
  }

  /** So does `addRanges`, whether or not it stops early. */
  lemma AddRangesKeepsValid(r: RangeSet, cidrs: seq<Option<string>>, parse: V6.AddressParser)
    requires Valid(r, parse)
    ensures Valid(AddRanges(r, cidrs, parse).ranges, parse)
  {
    WalkKeepsReplay(r, cidrs, Adder(parse));
  }

  // ---------------------------------------------------------------------
  // The history determines every answer

  /** The prefix an entry of the history stores in the IPv4 tree, if any. */
  ghost function Ipv4Entry(c: string): set<PrefixTrie.Key> {
    if IsBlank(c) || IsIpv6Text(c) then {}
    else match V4.ParseCidr(c)
      case Ok(range) => {V4.Key(range.ip)[..range.prefixLength]}
      case Err(_) => {}
  }

  /** The prefix an entry of the history stores in the IPv6 tree, if any. */
  ghost function Ipv6Entry(c: string, parse: V6.AddressParser): set<PrefixTrie.Key> {
    if IsBlank(c) || !IsIpv6Text(c) then {}
    else match V6.ParseCidr(c, parse)
      case Ok(range) => {BytesKey(range.ip)[..range.prefixLength]}
      case Err(_) => {}
  }

  ghost function Ipv4Prefixes(h: seq<string>): set<PrefixTrie.Key> {
    if |h| == 0 then {} else Ipv4Prefixes(h[..|h| - 1]) + Ipv4Entry(h[|h| - 1])
  }

  ghost function Ipv6Prefixes(h: seq<string>, parse: V6.AddressParser): set<PrefixTrie.Key> {
    if |h| == 0 then {} else Ipv6Prefixes(h[..|h| - 1], parse) + Ipv6Entry(h[|h| - 1], parse)
  }

  /** A successful `addRange` adds its string's prefix to the tree of its
      family and nothing to the other. */
  lemma AddRangeEntry(r: RangeSet, c: string, parse: V6.AddressParser)
    requires AddRange(r, Some(c), parse).Ok?
    ensures PrefixTrie.Stored(AddRange(r, Some(c), parse).value.v4) == PrefixTrie.Stored(r.v4) + Ipv4Entry(c)
    ensures PrefixTrie.Stored(AddRange(r, Some(c), parse).value.v6) == PrefixTrie.Stored(r.v6) + Ipv6Entry(c, parse)
  {
  }

  /** In a valid set, each tree stores exactly the prefixes of the history's
      entries of its family. */
  lemma {:induction false} StoredIsHistory(r: RangeSet, parse: V6.AddressParser)
    requires Valid(r, parse)
    ensures PrefixTrie.Stored(r.v4) == Ipv4Prefixes(r.history)
    ensures PrefixTrie.Stored(r.v6) == Ipv6Prefixes(r.history, parse)
    decreases |r.history|
  {
    var h := r.history;
    if |h| > 0 {
      var init, last := h[..|h| - 1], h[|h| - 1];
      var prev := Replay(init, Adder(parse)).value;
      ReplayHistory(init, Adder(parse));
      StoredIsHistory(prev, parse);
      assert AddRange(prev, Some(last), parse) == Ok(r);
      AddRangeEntry(prev, last, parse);
    }
  }

  /** A valid set answers `contains` exactly as the list of CIDR strings it
      was given says: true iff an entry of the literal's family covers the
      address. */
  lemma ContainsIsHistory(r: RangeSet, ip: string, parse: V6.AddressParser)
    requires Valid(r, parse)
    requires Contains(r, Some(ip), parse).Ok?
    ensures IsIpv6Text(ip) ==>
              (Contains(r, Some(ip), parse).value <==>
                 PrefixTrie.Covered(Ipv6Prefixes(r.history, parse), BytesKey(V6.IpToBytes(ip, parse).value)))
    ensures !IsIpv6Text(ip) ==>
              (Contains(r, Some(ip), parse).value <==>
                 PrefixTrie.Covered(Ipv4Prefixes(r.history), V4.Key(V4.IpToLong(ip).value)))
  {
    StoredIsHistory(r, parse);
  }

  // ---------------------------------------------------------------------
  // Properties of the façade

  /** Replaying the history of a valid set rebuilds that very set. */
  lemma CopyIsSource(source: RangeSet, parse: V6.AddressParser)
    ensures Valid(source, parse) ==> FromCollection(Somes(source.history), parse) == Ok(source)
  {
    if Valid(source, parse) {
      ReplayIsWalk(source.history, Adder(parse));
    }
  }

  /** The copy has the same history and the same answer to every query. */
  lemma CopyIsEquivalent(source: RangeSet, parse: V6.AddressParser)
    requires Valid(source, parse)
    ensures Copy(source, parse).Ok?
    ensures GetRanges(Copy(source, parse).value) == GetRanges(source)
    ensures forall ip :: Contains(Copy(source, parse).value, ip, parse) == Contains(source, ip, parse)
    ensures forall ip :: ContainsIpv4(Copy(source, parse).value, ip) == ContainsIpv4(source, ip)
    ensures forall ip :: ContainsIpv6(Copy(source, parse).value, ip) == ContainsIpv6(source, ip)
  {
    CopyIsSource(source, parse);
  }

  /** Adding a range of one family never changes an answer for the other. */
  lemma FamilyIsolation(r: RangeSet, cidr: string, ip: string, parse: V6.AddressParser)
    requires AddRange(r, Some(cidr), parse).Ok?
    requires IsIpv6Text(cidr) != IsIpv6Text(ip)
    ensures Contains(AddRange(r, Some(cidr), parse).value, Some(ip), parse) == Contains(r, Some(ip), parse)
  {
  }

  /** An address once contained stays contained after any later `addRange`. */
  lemma AddRangeKeepsContained(r: RangeSet, cidr: Option<string>, ip: string, parse: V6.AddressParser)
    requires Contains(r, Some(ip), parse) == Ok(true)
    requires AddRange(r, cidr, parse).Ok?
    ensures Contains(AddRange(r, cidr, parse).value, Some(ip), parse) == Ok(true)
  {
    var r' := AddRange(r, cidr, parse).value;
    if IsIpv6Text(ip) && IsIpv6Text(cidr.value) {
      var p :| p in PrefixTrie.Stored(r.v6) && p <= BytesKey(V6.IpToBytes(ip, parse).value);
      assert p in PrefixTrie.Stored(r'.v6);
    } else if !IsIpv6Text(ip) && !IsIpv6Text(cidr.value) {
      var p :| p in PrefixTrie.Stored(r.v4) && p <= V4.Key(V4.IpToLong(ip).value);
      assert p in PrefixTrie.Stored(r'.v4);
    }
  }

  /** Adding the same string twice leaves both trees as they were after the
      first time; only the history records the duplicate. */
  lemma AddRangeTwice(r: RangeSet, cidr: string, parse: V6.AddressParser)
    requires AddRange(r, Some(cidr), parse).Ok?
    ensures var once := AddRange(r, Some(cidr), parse).value;
            var twice := AddRange(once, Some(cidr), parse);
            twice.Ok? && twice.value.v4 == once.v4 && twice.value.v6 == once.v6 &&
            twice.value.history == once.history + [cidr]
  {
    var once := AddRange(r, Some(cidr), parse).value;
    if IsIpv6Text(cidr) {
      var range := V6.ParseCidr(cidr, parse).value;
      var p := BytesKey(range.ip)[..range.prefixLength];
      assert once.v6 == PrefixTrie.Insert(r.v6, p);
      PrefixTrie.InsertIdempotent(r.v6, p);
      assert AddRange(once, Some(cidr), parse) == Ok(once.(history := once.history + [cidr]));
    } else {
      var range := V4.ParseCidr(cidr).value;
      var p := V4.Path(range.ip, range.prefixLength);
      assert once.v4 == PrefixTrie.Insert(r.v4, p);
      PrefixTrie.InsertIdempotent(r.v4, p);
      assert AddRange(once, Some(cidr), parse) == Ok(once.(history := once.history + [cidr]));
    }
  }
}
