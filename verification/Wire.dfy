/** Flat buffers between Go and the C ABI: fixed-width big-endian records, packed on one side and
    read back on the other. */
module Wire {
  import opened Text

  // ---- big-endian numbers ----

  function Hi(x: bv16): bv8 { (x >> 8) as bv8 }

  function Lo(x: bv16): bv8 { (x & 0xFF) as bv8 }

  function U16(a: bv8, b: bv8): bv16 { ((a as bv16) << 8) | (b as bv16) }

  function Byte3(x: bv32): bv8 { (x >> 24) as bv8 }

  function Byte2(x: bv32): bv8 { ((x >> 16) & 0xFF) as bv8 }

  function Byte1(x: bv32): bv8 { ((x >> 8) & 0xFF) as bv8 }

  function Byte0(x: bv32): bv8 { (x & 0xFF) as bv8 }

  function U32(a: bv8, b: bv8, c: bv8, d: bv8): bv32 {
    ((a as bv32) << 24) | ((b as bv32) << 16) | ((c as bv32) << 8) | (d as bv32)
  }

  lemma Join16(x: bv16)
    ensures U16(Hi(x), Lo(x)) == x
  {
  }

  lemma Split16(a: bv8, b: bv8)
    ensures Hi(U16(a, b)) == a && Lo(U16(a, b)) == b
  {
  }

  lemma Join32(x: bv32)
    ensures U32(Byte3(x), Byte2(x), Byte1(x), Byte0(x)) == x
  {
  }

  lemma Split32(a: bv8, b: bv8, c: bv8, d: bv8)
    ensures var x := U32(a, b, c, d); Byte3(x) == a && Byte2(x) == b && Byte1(x) == c && Byte0(x) == d
  {
  }

  /** The bytes of a number: the first is the most significant. */
  lemma Value16(x: bv16)
    ensures Hi(x) as bv16 == x / 256 && Lo(x) as bv16 == x % 256
  {
  }

  lemma Value32(x: bv32)
    ensures Byte3(x) as bv32 == x / 0x100_0000 && Byte2(x) as bv32 == x / 0x1_0000 % 256
    ensures Byte1(x) as bv32 == x / 256 % 256 && Byte0(x) as bv32 == x % 256
  {
  }

  lemma Read16(a: bv8, b: bv8)
    ensures U16(a, b) == (a as bv16) * 256 + (b as bv16)
  {
  }

  lemma Read32(a: bv8, b: bv8, c: bv8, d: bv8)
    ensures U32(a, b, c, d) == (((a as bv32) * 256 + (b as bv32)) * 256 + (c as bv32)) * 256 + (d as bv32)
  {
  }

  // ---- records one after the other ----

  function Flat<R>(enc: R -> seq<bv8>, rs: seq<R>): seq<bv8> {
    if rs == [] then [] else Flat(enc, rs[..|rs| - 1]) + enc(rs[|rs| - 1])
  }

  /** The first `n` records of width `w`. */
  function Records<R>(w: nat, dec: seq<bv8> -> R, buf: seq<bv8>, n: nat): seq<R> {
    if n == 0 then [] else Records(w, dec, buf, n - 1) + [dec(Slot(w, buf, n - 1))]
  }

  /** Record `i` of a buffer, cut short where the buffer ends. */
  function Slot(w: nat, buf: seq<bv8>, i: nat): seq<bv8> {
    var a, b := w * i, w * i + w;
    if b <= |buf| then buf[a..b] else []
  }

  ghost predicate Width<R(!new)>(w: nat, enc: R -> seq<bv8>) {
    forall r :: |enc(r)| == w
  }

  ghost predicate Inverse<R(!new)>(enc: R -> seq<bv8>, dec: seq<bv8> -> R) {
    forall r :: dec(enc(r)) == r
  }

  lemma {:induction false} FlatLength<R(!new)>(w: nat, enc: R -> seq<bv8>, rs: seq<R>)
    requires Width(w, enc)
    ensures |Flat(enc, rs)| == w * |rs|
  {
    if rs != [] {
      var n := |rs| - 1;
      FlatLength(w, enc, rs[..n]);
      assert w * (n + 1) == w * n + w;
    }
  }

  lemma {:induction false} RecordsPrefix<R>(w: nat, dec: seq<bv8> -> R, a: seq<bv8>, b: seq<bv8>, n: nat)
    requires w * n <= |a|
    ensures Records(w, dec, a + b, n) == Records(w, dec, a, n)
  {
    if n > 0 {
      assert w * n == w * (n - 1) + w;
      RecordsPrefix(w, dec, a, b, n - 1);
      assert Slot(w, a + b, n - 1) == Slot(w, a, n - 1);
    }
  }

  lemma SlotAfter(w: nat, a: seq<bv8>, b: seq<bv8>, i: nat)
    requires |a| == w * i && |b| == w
    ensures Slot(w, a + b, i) == b
  {
  }

  /** Whatever was packed is read back, record by record. */
  lemma {:induction false} RecordsOfFlat<R(!new)>(w: nat, enc: R -> seq<bv8>, dec: seq<bv8> -> R, rs: seq<R>)
    requires Width(w, enc) && Inverse(enc, dec)
    ensures Records(w, dec, Flat(enc, rs), |rs|) == rs
  {
    if rs != [] {
      var init, r := rs[..|rs| - 1], rs[|rs| - 1];
      RecordsOfFlat(w, enc, dec, init);
      FlatLength(w, enc, init);
      RecordsPrefix(w, dec, Flat(enc, init), enc(r), |init|);
      SlotAfter(w, Flat(enc, init), enc(r), |init|);
      assert rs == init + [r];
    }
  }

  /** Record `i` packs to the bytes it was read from. */
  predicate Kept<R>(w: nat, enc: R -> seq<bv8>, dec: seq<bv8> -> R, buf: seq<bv8>, i: nat) {
    enc(dec(Slot(w, buf, i))) == Slot(w, buf, i)
  }

  predicate AllKept<R>(w: nat, enc: R -> seq<bv8>, dec: seq<bv8> -> R, buf: seq<bv8>, n: nat) {
    forall i :: 0 <= i < n ==> Kept(w, enc, dec, buf, i)
  }

  lemma AllKeptSnoc<R>(w: nat, enc: R -> seq<bv8>, dec: seq<bv8> -> R, buf: seq<bv8>, n: nat)
    ensures AllKept(w, enc, dec, buf, n + 1) <==> AllKept(w, enc, dec, buf, n) && Kept(w, enc, dec, buf, n)
  {
  }

  /** The first `n` records pack to the first `k` bytes they were read from. */
  predicate Repacks<R>(w: nat, enc: R -> seq<bv8>, dec: seq<bv8> -> R, buf: seq<bv8>, n: nat, k: nat)
    requires k <= |buf|
  {
    Flat(enc, Records(w, dec, buf, n)) == buf[..k]
  }

  /** Whatever was read packs to the bytes it was read from exactly when each record does. */
  lemma {:induction false} FlatOfRecords<R(!new)>(w: nat, enc: R -> seq<bv8>, dec: seq<bv8> -> R, buf: seq<bv8>,
                                                         n: nat, k: nat)
    requires Width(w, enc) && k == w * n && k <= |buf|
    ensures Repacks(w, enc, dec, buf, n, k) <==> AllKept(w, enc, dec, buf, n)
  {
    if n == 0 {
      assert buf[..0] == [];
    } else {
      OneMore(w, n);
      FlatOfRecords(w, enc, dec, buf, n - 1, k - w);
      FlatOfMore(w, enc, dec, buf, n - 1, k - w);
      AllKeptSnoc(w, enc, dec, buf, n - 1);
    }
  }

  lemma OneMore(w: nat, n: nat)
    requires n > 0
    ensures w * n == w * (n - 1) + w
  {
  }

  lemma FlatOfMore<R(!new)>(w: nat, enc: R -> seq<bv8>, dec: seq<bv8> -> R, buf: seq<bv8>, n: nat, k: nat)
    requires Width(w, enc) && k == w * n && k + w <= |buf|
    ensures Repacks(w, enc, dec, buf, n + 1, k + w) <==> Repacks(w, enc, dec, buf, n, k) && Kept(w, enc, dec, buf, n)
  {
    var rs, r := Records(w, dec, buf, n), dec(Slot(w, buf, n));
    RecordsAre(w, dec, buf, n);
    FlatLength(w, enc, rs);
    FlatSnoc(enc, rs, r);
    SplitsAt(buf, Flat(enc, rs), enc(r));
  }

  lemma FlatSnoc<R>(enc: R -> seq<bv8>, rs: seq<R>, r: R)
    ensures Flat(enc, rs + [r]) == Flat(enc, rs) + enc(r)
  {
    assert (rs + [r])[..|rs|] == rs;
  }

  lemma SplitsAt(buf: seq<bv8>, a: seq<bv8>, b: seq<bv8>)
    requires |a| + |b| <= |buf|
    ensures a + b == buf[..|a| + |b|] <==> a == buf[..|a|] && b == buf[|a|..|a| + |b|]
  {
    var k, n := |a|, |a| + |b|;
    assert buf[..n] == buf[..k] + buf[k..n];
    assert (a + b)[..k] == a && (a + b)[k..] == b;
    assert buf[..n][..k] == buf[..k] && buf[..n][k..] == buf[k..n];
  }

  lemma {:induction false} RecordsAre<R>(w: nat, dec: seq<bv8> -> R, buf: seq<bv8>, n: nat)
    ensures var rs := Records(w, dec, buf, n); |rs| == n && forall i :: 0 <= i < n ==> rs[i] == dec(Slot(w, buf, i))
  {
    if n > 0 { RecordsAre(w, dec, buf, n - 1); }
  }

  lemma SameCount(w: nat, m: nat, n: nat)
    requires w > 0 && w * m == w * n
    ensures m == n
  {
    assert w * (m - n) == 0;
  }

  /** Packing is injective. */
  lemma FlatInjective<R(!new)>(w: nat, enc: R -> seq<bv8>, dec: seq<bv8> -> R, a: seq<R>, b: seq<R>)
    requires Width(w, enc) && Inverse(enc, dec) && w > 0 && Flat(enc, a) == Flat(enc, b)
    ensures a == b
  {
    FlatLength(w, enc, a);
    FlatLength(w, enc, b);
    SameCount(w, |a|, |b|);
    RecordsOfFlat(w, enc, dec, a);
    RecordsOfFlat(w, enc, dec, b);
  }

  // ---- extended next hops: five bytes a tuple ----

  datatype NextHop = NextHop(nlriAfi: bv16, nlriSafi: bv8, nexthopAfi: bv16)

  function EncodeNextHop(t: NextHop): seq<bv8> {
    [Hi(t.nlriAfi), Lo(t.nlriAfi), t.nlriSafi, Hi(t.nexthopAfi), Lo(t.nexthopAfi)]
  }

  function DecodeNextHop(b: seq<bv8>): NextHop {
    if |b| < 5 then NextHop(0, 0, 0) else NextHop(U16(b[0], b[1]), b[2], U16(b[3], b[4]))
  }

  lemma NextHopRecord()
    ensures Width(5, EncodeNextHop) && Inverse(EncodeNextHop, DecodeNextHop)
  {
    forall t ensures DecodeNextHop(EncodeNextHop(t)) == t {
      Join16(t.nlriAfi);
      Join16(t.nexthopAfi);
    }
  }

  lemma NextHopBytes(b: seq<bv8>)
    requires |b| == 5
    ensures EncodeNextHop(DecodeNextHop(b)) == b
  {
    Split16(b[0], b[1]);
    Split16(b[3], b[4]);
  }

  // ---- multiprotocol families: four bytes each, section 8 of RFC 4760 ----

  datatype Family = Family(afi: bv16, safi: bv8)

  function EncodeFamily(f: Family): seq<bv8> {
    [Hi(f.afi), Lo(f.afi), 0, f.safi]
  }

  /** The reserved byte is not looked at. */
  function DecodeFamily(b: seq<bv8>): Family {
    if |b| < 4 then Family(0, 0) else Family(U16(b[0], b[1]), b[3])
  }

  /** The family of any four bytes: the third is not looked at. */
  lemma FamilyOfBytes(b: seq<bv8>)
    requires |b| == 4
    ensures DecodeFamily(b).afi == (b[0] as bv16) * 256 + (b[1] as bv16) && DecodeFamily(b).safi == b[3]
  {
    Read16(b[0], b[1]);
  }

  /** The tuple of any five bytes. */
  lemma NextHopOfBytes(b: seq<bv8>)
    requires |b| == 5
    ensures DecodeNextHop(b).nlriAfi == (b[0] as bv16) * 256 + (b[1] as bv16) && DecodeNextHop(b).nlriSafi == b[2]
    ensures DecodeNextHop(b).nexthopAfi == (b[3] as bv16) * 256 + (b[4] as bv16)
  {
    Read16(b[0], b[1]);
    Read16(b[3], b[4]);
  }

  lemma FamilyRecord()
    ensures Width(4, EncodeFamily) && Inverse(EncodeFamily, DecodeFamily)
  {
    forall f ensures DecodeFamily(EncodeFamily(f)) == f { Join16(f.afi); }
  }

  lemma FamilyBytes(b: seq<bv8>)
    requires |b| == 4
    ensures EncodeFamily(DecodeFamily(b)) == b <==> b[2] == 0
  {
    Split16(b[0], b[1]);
  }

  // ---- communities, RFC 1997, and large communities, section 3 of RFC 8092 ----

  function EncodeCommunity(c: bv32): seq<bv8> {
    [Byte3(c), Byte2(c), Byte1(c), Byte0(c)]
  }

  function DecodeCommunity(b: seq<bv8>): bv32 {
    if |b| < 4 then 0 else U32(b[0], b[1], b[2], b[3])
  }

  lemma CommunityRecord()
    ensures Width(4, EncodeCommunity) && Inverse(EncodeCommunity, DecodeCommunity)
  {
    forall c ensures DecodeCommunity(EncodeCommunity(c)) == c { Join32(c); }
  }

  datatype Large = Large(globalAdmin: bv32, localData1: bv32, localData2: bv32)

  function EncodeLarge(c: Large): seq<bv8> {
    [Byte3(c.globalAdmin), Byte2(c.globalAdmin), Byte1(c.globalAdmin), Byte0(c.globalAdmin),
     Byte3(c.localData1), Byte2(c.localData1), Byte1(c.localData1), Byte0(c.localData1),
     Byte3(c.localData2), Byte2(c.localData2), Byte1(c.localData2), Byte0(c.localData2)]
  }

  function DecodeLarge(b: seq<bv8>): Large {
    if |b| < 12 then Large(0, 0, 0)
    else Large(U32(b[0], b[1], b[2], b[3]), U32(b[4], b[5], b[6], b[7]), U32(b[8], b[9], b[10], b[11]))
  }

  lemma LargeRoundTrip(c: Large)
    ensures DecodeLarge(EncodeLarge(c)) == c
  {
    Join32(c.globalAdmin);
    Join32(c.localData1);
    Join32(c.localData2);
  }

  lemma LargeRecord()
    ensures Width(12, EncodeLarge) && Inverse(EncodeLarge, DecodeLarge)
  {
    forall c ensures DecodeLarge(EncodeLarge(c)) == c { LargeRoundTrip(c); }
  }

  lemma CommunityBytes(b: seq<bv8>)
    requires |b| == 4
    ensures EncodeCommunity(DecodeCommunity(b)) == b
  {
    Split32(b[0], b[1], b[2], b[3]);
  }

  lemma LargeBytes(b: seq<bv8>)
    requires |b| == 12
    ensures EncodeLarge(DecodeLarge(b)) == b
  {
    Split32(b[0], b[1], b[2], b[3]);
    Split32(b[4], b[5], b[6], b[7]);
    Split32(b[8], b[9], b[10], b[11]);
  }

  // ---- the layouts, byte by byte ----

  /** Two bytes of one number and one of the next: address family, subsequent family, next-hop
      family. */
  lemma NextHopLayout(t: NextHop)
    ensures var b := EncodeNextHop(t);
            && |b| == 5 && b[2] == t.nlriSafi
            && (b[0] as bv16) * 256 + (b[1] as bv16) == t.nlriAfi
            && (b[3] as bv16) * 256 + (b[4] as bv16) == t.nexthopAfi
  {
    Join16(t.nlriAfi);
    Join16(t.nexthopAfi);
    Read16(Hi(t.nlriAfi), Lo(t.nlriAfi));
    Read16(Hi(t.nexthopAfi), Lo(t.nexthopAfi));
  }

  lemma FamilyLayout(f: Family)
    ensures var b := EncodeFamily(f);
            |b| == 4 && (b[0] as bv16) * 256 + (b[1] as bv16) == f.afi && b[2] == 0 && b[3] == f.safi
  {
    Join16(f.afi);
    Read16(Hi(f.afi), Lo(f.afi));
  }

  function Number32(a: bv8, b: bv8, c: bv8, d: bv8): bv32 {
    (((a as bv32) * 256 + (b as bv32)) * 256 + (c as bv32)) * 256 + (d as bv32)
  }

  lemma NumberOf(x: bv32)
    ensures Number32(Byte3(x), Byte2(x), Byte1(x), Byte0(x)) == x
  {
    Join32(x);
    Read32(Byte3(x), Byte2(x), Byte1(x), Byte0(x));
  }

  lemma CommunityLayout(c: bv32)
    ensures var b := EncodeCommunity(c);
            |b| == 4 && Number32(b[0], b[1], b[2], b[3]) == c
  {
    NumberOf(c);
  }

  lemma LargeLayout(c: Large)
    ensures var b := EncodeLarge(c);
            && |b| == 12 && Number32(b[0], b[1], b[2], b[3]) == c.globalAdmin
            && Number32(b[4], b[5], b[6], b[7]) == c.localData1 && Number32(b[8], b[9], b[10], b[11]) == c.localData2
  {
    NumberOf(c.globalAdmin);
    NumberOf(c.localData1);
    NumberOf(c.localData2);
  }

  /** The two families named in the documentation of the C function. */
  lemma WellKnownFamilies()
    ensures EncodeFamily(Family(1, 1)) == [0, 1, 0, 1] && EncodeFamily(Family(2, 1)) == [0, 2, 0, 1]
  {
  }

  // ---- packing in Go ----

  /** Where the bytes of record `i` stand. */
  lemma {:induction false} FlatRecord<R(!new)>(w: nat, enc: R -> seq<bv8>, rs: seq<R>, i: nat)
    requires Width(w, enc) && i < |rs|
    ensures var f := Flat(enc, rs);
            |f| == w * |rs| && w * i + w <= |f| && forall j :: w * i <= j < w * i + w ==> f[j] == enc(rs[i])[j - w * i]
  {
    var n := |rs| - 1;
    FlatLength(w, enc, rs);
    FlatLength(w, enc, rs[..n]);
    assert w * (n + 1) == w * n + w;
    if i < n { FlatRecord(w, enc, rs[..n], i); }
  }

  /** `e` stands at `off` and the rest is as it was. */
  twostate predicate Put(buf: array<bv8>, off: nat, e: seq<bv8>)
    reads buf
  {
    forall j :: 0 <= j < buf.Length ==> buf[j] == if off <= j < off + |e| then e[j - off] else old(buf[j])
  }

  method PutNextHop(buf: array<bv8>, off: nat, t: NextHop)
    requires off + 5 <= buf.Length
    modifies buf
    ensures Put(buf, off, EncodeNextHop(t))
  {
    buf[off + 0] := Hi(t.nlriAfi);
    buf[off + 1] := Lo(t.nlriAfi);
    buf[off + 2] := t.nlriSafi;
    buf[off + 3] := Hi(t.nexthopAfi);
    buf[off + 4] := Lo(t.nexthopAfi);
  }

  method PackNextHops(ts: seq<NextHop>) returns (buf: array<bv8>)
    ensures fresh(buf) && buf[..] == Flat(EncodeNextHop, ts)
  {
    NextHopRecord();
    FlatLength(5, EncodeNextHop, ts);
    ghost var flat := Flat(EncodeNextHop, ts);
    buf := new bv8[5 * |ts|];
    for i := 0 to |ts|
      invariant forall j :: 0 <= j < 5 * i ==> buf[j] == flat[j]
    {
      PutNextHop(buf, 5 * i, ts[i]);
      FlatRecord(5, EncodeNextHop, ts, i);
    }
  }

  method PutFamily(buf: array<bv8>, off: nat, f: Family)
    requires off + 4 <= buf.Length
    modifies buf
    ensures Put(buf, off, EncodeFamily(f))
  {
    buf[off + 0] := Hi(f.afi);
    buf[off + 1] := Lo(f.afi);
    buf[off + 2] := 0;
    buf[off + 3] := f.safi;
  }

  method PackFamilies(fs: seq<Family>) returns (buf: array<bv8>)
    ensures fresh(buf) && buf[..] == Flat(EncodeFamily, fs)
  {
    FamilyRecord();
    FlatLength(4, EncodeFamily, fs);
    ghost var flat := Flat(EncodeFamily, fs);
    buf := new bv8[4 * |fs|];
    for i := 0 to |fs|
      invariant forall j :: 0 <= j < 4 * i ==> buf[j] == flat[j]
    {
      PutFamily(buf, 4 * i, fs[i]);
      FlatRecord(4, EncodeFamily, fs, i);
    }
  }

  // ---- reading on the C side ----

  datatype Result<T> = Ok(value: T) | Err(rc: int)

  const MAX_EXT_NEXT_HOP_TUPLES := 1024
  const MAX_MP_FAMILIES := 1024

  method ParseNextHops(tuples: array?<bv8>, count: nat) returns (r: Result<seq<NextHop>>)
    requires tuples != null ==> 5 * count <= tuples.Length
    ensures r == if count == 0 || tuples == null then Ok([])
                 else if count > MAX_EXT_NEXT_HOP_TUPLES then Err(-3)
                 else Ok(Records(5, DecodeNextHop, tuples[..], count))
  {
    if count == 0 || tuples == null { return Ok([]); }
    if count > MAX_EXT_NEXT_HOP_TUPLES { return Err(-3); }
    var out := [];
    for i := 0 to count
      invariant out == Records(5, DecodeNextHop, tuples[..], i)
    {
      var t := tuples[5 * i..5 * i + 5];
      assert t == Slot(5, tuples[..], i);
      out := out + [NextHop(U16(t[0], t[1]), t[2], U16(t[3], t[4]))];
    }
    return Ok(out);
  }

  method ParseFamilies(families: array?<bv8>, count: nat) returns (r: Result<seq<Family>>)
    requires families != null ==> 4 * count <= families.Length
    ensures r == if count == 0 || families == null then Ok([])
                 else if count > MAX_MP_FAMILIES then Err(-3)
                 else Ok(Records(4, DecodeFamily, families[..], count))
  {
    if count == 0 || families == null { return Ok([]); }
    if count > MAX_MP_FAMILIES { return Err(-3); }
    var out := [];
    for i := 0 to count
      invariant out == Records(4, DecodeFamily, families[..], i)
    {
      var t := families[4 * i..4 * i + 4];
      assert t == Slot(4, families[..], i);
      out := out + [Family(U16(t[0], t[1]), t[3])];
    }
    return Ok(out);
  }

  /** The C entry point. `live` says whether the router handle could be locked and `accepts`
      what the router makes of the tuples; `asked` is what the router was told to set. */
  method ConfigureNextHops(live: bool, accepts: seq<NextHop> -> bool, tuples: array?<bv8>, count: nat)
    returns (rc: int, asked: Option<seq<NextHop>>)
    requires tuples != null ==> 5 * count <= tuples.Length
    ensures var ts := if count == 0 || tuples == null then [] else Records(5, DecodeNextHop, tuples[..], count);
            if !live then rc == -1 && asked == None
            else if count > MAX_EXT_NEXT_HOP_TUPLES && tuples != null then rc == -3 && asked == None
            else asked == Some(ts) && rc == if accepts(ts) then 0 else -2
  {
    if !live { return -1, None; }
    var parsed := ParseNextHops(tuples, count);
    match parsed
    case Err(e) => return e, None;
    case Ok(ts) => return if accepts(ts) then 0 else -2, Some(ts);
  }

  method ConfigureFamilies(live: bool, accepts: seq<Family> -> bool, families: array?<bv8>, count: nat)
    returns (rc: int, asked: Option<seq<Family>>)
    requires families != null ==> 4 * count <= families.Length
    ensures var fs := if count == 0 || families == null then [] else Records(4, DecodeFamily, families[..], count);
            if !live then rc == -1 && asked == None
            else if count > MAX_MP_FAMILIES && families != null then rc == -3 && asked == None
            else asked == Some(fs) && rc == if accepts(fs) then 0 else -2
  {
    if !live { return -1, None; }
    var parsed := ParseFamilies(families, count);
    match parsed
    case Err(e) => return e, None;
    case Ok(fs) => return if accepts(fs) then 0 else -2, Some(fs);
  }

  /** From the Go slice to the router: it is asked to set exactly the tuples that were given,
      unless the handle is dead or there are too many; an empty slice clears the setting. */
  method SetExtendedNextHop(live: bool, accepts: seq<NextHop> -> bool, ts: seq<NextHop>)
    returns (rc: int, asked: Option<seq<NextHop>>)
    ensures asked == if live && |ts| <= 1024 then Some(ts) else None
    ensures rc == if !live then -1 else if |ts| > 1024 then -3 else if accepts(ts) then 0 else -2
  {
    if |ts| == 0 {
      rc, asked := ConfigureNextHops(live, accepts, null, 0);
    } else {
      var buf := PackNextHops(ts);
      NextHopRecord();
      FlatLength(5, EncodeNextHop, ts);
      RecordsOfFlat(5, EncodeNextHop, DecodeNextHop, ts);
      rc, asked := ConfigureNextHops(live, accepts, buf, |ts|);
    }
  }

  method SetMPFamilies(live: bool, accepts: seq<Family> -> bool, fs: seq<Family>)
    returns (rc: int, asked: Option<seq<Family>>)
    ensures asked == if live && |fs| <= 1024 then Some(fs) else None
    ensures rc == if !live then -1 else if |fs| > 1024 then -3 else if accepts(fs) then 0 else -2
  {
    if |fs| == 0 {
      rc, asked := ConfigureFamilies(live, accepts, null, 0);
    } else {
      var buf := PackFamilies(fs);
      FamilyRecord();
      FlatLength(4, EncodeFamily, fs);
      RecordsOfFlat(4, EncodeFamily, DecodeFamily, fs);
      rc, asked := ConfigureFamilies(live, accepts, buf, |fs|);
    }
  }

  /** Packing loses nothing: different lists of tuples, or of families, give different buffers. */
  lemma NextHopsInjective(a: seq<NextHop>, b: seq<NextHop>)
    requires Flat(EncodeNextHop, a) == Flat(EncodeNextHop, b)
    ensures a == b
  {
    NextHopRecord();
    FlatInjective(5, EncodeNextHop, DecodeNextHop, a, b);
  }

  lemma FamiliesInjective(a: seq<Family>, b: seq<Family>)
    requires Flat(EncodeFamily, a) == Flat(EncodeFamily, b)
    ensures a == b
  {
    FamilyRecord();
    FlatInjective(4, EncodeFamily, DecodeFamily, a, b);
  }

  /** Every buffer of next-hop tuples is the packed form of what is read from it. */
  lemma NextHopsRepack(buf: seq<bv8>, n: nat)
    requires 5 * n <= |buf|
    ensures Flat(EncodeNextHop, Records(5, DecodeNextHop, buf, n)) == buf[..5 * n]
  {
    NextHopRecord();
    forall i: nat | i < n ensures Kept(5, EncodeNextHop, DecodeNextHop, buf, i) {
      NextHopBytes(Slot(5, buf, i));
    }
    FlatOfRecords(5, EncodeNextHop, DecodeNextHop, buf, n, 5 * n);
  }

  /** A buffer of families is, exactly when its reserved bytes are zero. */
  lemma FamiliesRepack(buf: seq<bv8>, n: nat)
    requires 4 * n <= |buf|
    ensures Flat(EncodeFamily, Records(4, DecodeFamily, buf, n)) == buf[..4 * n]
       <==> forall i :: 0 <= i < n ==> Slot(4, buf, i)[2] == 0
  {
    FamilyRecord();
    forall i: nat | i < n ensures Kept(4, EncodeFamily, DecodeFamily, buf, i) <==> Slot(4, buf, i)[2] == 0 {
      FamilyBytes(Slot(4, buf, i));
    }
    FlatOfRecords(4, EncodeFamily, DecodeFamily, buf, n, 4 * n);
  }

  // ---- communities: encoded on the C side, decoded in Go ----

  method EncodeCommunities(cs: seq<bv32>) returns (bytes: seq<bv8>, n: nat)
    ensures bytes == Flat(EncodeCommunity, cs) && n == |cs|
  {
    n, bytes := |cs|, [];
    for i := 0 to |cs|
      invariant bytes == Flat(EncodeCommunity, cs[..i])
    {
      assert cs[..i + 1][..i] == cs[..i];
      bytes := bytes + [Byte3(cs[i]), Byte2(cs[i]), Byte1(cs[i]), Byte0(cs[i])];
    }
    assert cs[..|cs|] == cs;
  }

  /** No communities and a buffer that is too short both read as nil. */
  method DecodeCommunities(count: nat, raw: seq<bv8>) returns (out: array?<bv32>)
    ensures out == null <==> count == 0 || |raw| < count * 4
    ensures out != null ==> out[..] == Records(4, DecodeCommunity, raw, count)
  {
    if count == 0 || |raw| < count * 4 { return null; }
    out := new bv32[count];
    for i := 0 to count
      invariant forall j :: 0 <= j < i ==> out[j] == DecodeCommunity(Slot(4, raw, j))
    {
      var off := i * 4;
      out[i] := U32(raw[off], raw[off + 1], raw[off + 2], raw[off + 3]);
    }
    RecordsAre(4, DecodeCommunity, raw, count);
  }

  method EncodeLargeCommunities(cs: seq<Large>) returns (bytes: seq<bv8>, n: nat)
    ensures bytes == Flat(EncodeLarge, cs) && n == |cs|
  {
    n, bytes := |cs|, [];
    for i := 0 to |cs|
      invariant bytes == Flat(EncodeLarge, cs[..i])
    {
      assert cs[..i + 1][..i] == cs[..i];
      bytes := bytes + EncodeLarge(cs[i]);
    }
    assert cs[..|cs|] == cs;
  }

  lemma LargeAt(raw: seq<bv8>, off: nat)
    requires off + 12 <= |raw|
    ensures DecodeLarge(raw[off..off + 12])
         == Large(U32(raw[off], raw[off + 1], raw[off + 2], raw[off + 3]),
                  U32(raw[off + 4], raw[off + 5], raw[off + 6], raw[off + 7]),
                  U32(raw[off + 8], raw[off + 9], raw[off + 10], raw[off + 11]))
  {
  }

  lemma LargeSlot(raw: seq<bv8>, count: nat, i: nat)
    requires i < count && count * 12 <= |raw|
    ensures var all := Records(12, DecodeLarge, raw, count);
            i * 12 + 12 <= |raw| && |all| == count && all[i] == DecodeLarge(raw[i * 12..i * 12 + 12])
  {
    RecordsAre(12, DecodeLarge, raw, count);
  }

  method ReadLarge(raw: seq<bv8>, off: nat) returns (c: Large)
    requires off + 12 <= |raw|
    ensures c == DecodeLarge(raw[off..off + 12])
  {
    var ga := U32(raw[off], raw[off + 1], raw[off + 2], raw[off + 3]);
    var l1 := U32(raw[off + 4], raw[off + 5], raw[off + 6], raw[off + 7]);
    var l2 := U32(raw[off + 8], raw[off + 9], raw[off + 10], raw[off + 11]);
    LargeAt(raw, off);
    c := Large(ga, l1, l2);
  }

  /** The communities before the first one that cannot be made. */
  function Made(makes: Large -> bool, cs: seq<Large>): seq<Large> {
    if cs == [] || !makes(cs[0]) then [] else [cs[0]] + Made(makes, cs[1..])
  }

  lemma {:induction false} MadeFacts(makes: Large -> bool, cs: seq<Large>)
    ensures var r := Made(makes, cs);
            && r <= cs && (forall i :: 0 <= i < |r| ==> makes(r[i]))
            && (|r| < |cs| ==> !makes(cs[|r|]))
  {
    if cs != [] && makes(cs[0]) { MadeFacts(makes, cs[1..]); }
  }

  /** `makes` says whether the C constructor gives a community. The first one it refuses ends
      the list, and the communities before it are returned beside the error. */
  method DecodeLargeCommunities(count: nat, raw: seq<bv8>, makes: Large -> bool)
    returns (out: Option<seq<Large>>, failed: bool)
    ensures out == if count == 0 || |raw| < count * 12 then None
                   else Some(Made(makes, Records(12, DecodeLarge, raw, count)))
    ensures failed <==> out.Some? && |out.value| < count
  {
    if count == 0 || |raw| < count * 12 { return None, false; }
    var r := [];
    ghost var all := Records(12, DecodeLarge, raw, count);
    RecordsAre(12, DecodeLarge, raw, count);
    assert all[0..] == all;
    for i := 0 to count
      invariant |r| == i && r + Made(makes, all[i..]) == Made(makes, all)
    {
      LargeSlot(raw, count, i);
      var c := ReadLarge(raw, i * 12);
      MadeStep(makes, all, i, r);
      if !makes(c) { return Some(r), true; }
      r := r + [c];
    }
    assert r + [] == r;
    return Some(r), false;
  }

  lemma MadeStep(makes: Large -> bool, all: seq<Large>, i: nat, r: seq<Large>)
    requires i < |all|
    ensures r + Made(makes, all[i..]) == if makes(all[i]) then (r + [all[i]]) + Made(makes, all[i + 1..]) else r
  {
    DropDrop(all, i, 1);
    Assoc(r, [all[i]], Made(makes, all[i + 1..]));
    assert r + [] == r;
  }

  /** Decoding the concatenation of any list of communities returns that list. */
  lemma CommunitiesRoundTrip(cs: seq<bv32>)
    ensures |Flat(EncodeCommunity, cs)| == 4 * |cs|
    ensures Records(4, DecodeCommunity, Flat(EncodeCommunity, cs), |cs|) == cs
  {
    CommunityRecord();
    FlatLength(4, EncodeCommunity, cs);
    RecordsOfFlat(4, EncodeCommunity, DecodeCommunity, cs);
  }

  lemma LargeCommunitiesRoundTrip(cs: seq<Large>)
    ensures |Flat(EncodeLarge, cs)| == 12 * |cs|
    ensures Records(12, DecodeLarge, Flat(EncodeLarge, cs), |cs|) == cs
  {
    LargeRecord();
    FlatLength(12, EncodeLarge, cs);
    RecordsOfFlat(12, EncodeLarge, DecodeLarge, cs);
  }

  /** Every buffer of communities is the packed form of what is read from it. */
  lemma CommunitiesRepack(buf: seq<bv8>, n: nat)
    requires 4 * n <= |buf|
    ensures Flat(EncodeCommunity, Records(4, DecodeCommunity, buf, n)) == buf[..4 * n]
  {
    CommunityRecord();
    forall i: nat | i < n ensures Kept(4, EncodeCommunity, DecodeCommunity, buf, i) {
      CommunityBytes(Slot(4, buf, i));
    }
    FlatOfRecords(4, EncodeCommunity, DecodeCommunity, buf, n, 4 * n);
  }

  lemma LargeCommunitiesRepack(buf: seq<bv8>, n: nat)
    requires 12 * n <= |buf|
    ensures Flat(EncodeLarge, Records(12, DecodeLarge, buf, n)) == buf[..12 * n]
  {
    LargeRecord();
    forall i: nat | i < n ensures Kept(12, EncodeLarge, DecodeLarge, buf, i) {
      LargeBytes(Slot(12, buf, i));
    }
    FlatOfRecords(12, EncodeLarge, DecodeLarge, buf, n, 12 * n);
  }

  // ---- route origin authorisations ----

  datatype RoaEntry = RoaEntry(addr: seq<bv8>, prefixLen: bv8, maxLength: bv8, asn: bv32)

  /** The C structure: sixteen address bytes, of which an IPv4 entry uses four. */
  class CEntry {
    var isIpv6: bv8
    const addr: array<bv8>
    var prefixLen: bv8
    var maxLength: bv8
    var asn: bv32

    ghost predicate Valid() {
      addr.Length == 16
    }

    /** What the structure says. */
    ghost function Entry(): RoaEntry
      requires Valid()
      reads this, addr
    {
      RoaEntry(if isIpv6 == 0 then addr[..4] else addr[..], prefixLen, maxLength, asn)
    }

    constructor ()
      ensures Valid() && fresh(addr)
    {
      addr := new bv8[16];
    }

    /** An entry is copied in whatever the structure held before; an address of another length
        changes nothing. */
    method Fill(e: RoaEntry) returns (ok: bool)
      requires Valid()
      modifies this, addr
      ensures ok <==> |e.addr| == 4 || |e.addr| == 16
      ensures if ok then Entry() == e else Entry() == old(Entry()) && addr[..] == old(addr[..])
      ensures ok ==> prefixLen == e.prefixLen && maxLength == e.maxLength && asn == e.asn
      ensures ok ==> addr[..|e.addr|] == e.addr && addr[|e.addr|..] == old(addr[|e.addr|..])
      ensures ok ==> isIpv6 == if |e.addr| == 4 then 0 else 1
      ensures !ok ==> isIpv6 == old(isIpv6) && prefixLen == old(prefixLen)
      ensures !ok ==> maxLength == old(maxLength) && asn == old(asn)
    {
      if |e.addr| != 4 && |e.addr| != 16 { return false; }
      isIpv6 := if |e.addr| == 4 then 0 else 1;
      for i := 0 to |e.addr|
        invariant isIpv6 == if |e.addr| == 4 then 0 else 1
        invariant addr[..i] == e.addr[..i] && addr[i..] == old(addr[i..])
      {
        ghost var rest := old(addr[i..]);
        addr[i] := e.addr[i];
        assert addr[i + 1..] == rest[1..];
      }
      prefixLen, maxLength, asn := e.prefixLen, e.maxLength, e.asn;
      assert e.addr[..|e.addr|] == e.addr && addr[..16] == addr[..];
      return true;
    }

    /** Reading copies four or sixteen address bytes out. */
    method Read() returns (e: RoaEntry)
      requires Valid()
      ensures e == Entry()
      ensures e.prefixLen == prefixLen && e.maxLength == maxLength && e.asn == asn
      ensures e.addr == if isIpv6 == 0 then addr[..4] else addr[..16]
    {
      var n := if isIpv6 == 0 then 4 else 16;
      var a := new bv8[n];
      for i := 0 to n
        invariant a[..i] == addr[..i]
      {
        a[i] := addr[i];
        assert a[..i + 1] == a[..i] + [addr[i]] && addr[..i + 1] == addr[..i] + [addr[i]];
      }
      assert a[..] == a[..n] && addr[..16] == addr[..];
      return RoaEntry(a[..], prefixLen, maxLength, asn);
    }
  }
}
