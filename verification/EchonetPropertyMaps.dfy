/** The property maps 9D, 9E and 9F: a list of up to 15 EPCs, or a bitmap of 16 bytes. */
module EchonetPropertyMaps {
  import opened Common
  import opened Echonet

  predicate IsMapEpc(epc: byte) { epc == 0x9D || epc == 0x9E || epc == 0x9F }

  /** `v & (1 << h)`. */
  predicate Bit(v: nat, h: nat) {
    if h == 0 then v % 2 == 1 else Bit(v / 2, h - 1)
  }

  /** Bitmap position `k` (bit `k % 8` of byte `k / 8`) stands for this EPC. */
  function EpcAt(k: nat): (epc: byte)
    requires k < 128
    ensures 0x80 <= epc
  {
    (k % 8 + 8) * 16 + k / 8
  }

  function PositionOf(epc: byte): (k: nat)
    requires 0x80 <= epc
    ensures k < 128
  {
    (epc % 16) * 8 + (epc / 16 - 8)
  }

  lemma EpcOfPosition(epc: byte)
    requires 0x80 <= epc
    ensures EpcAt(PositionOf(epc)) == epc
  {
    var low, high := epc % 16, epc / 16 - 8;
    assert PositionOf(epc) == low * 8 + high && 0 <= high < 8;
    assert (low * 8 + high) % 8 == high && (low * 8 + high) / 8 == low;
  }

  lemma PositionOfEpc(k: nat)
    requires k < 128
    ensures PositionOf(EpcAt(k)) == k
  {
    var low, high := k / 8, k % 8;
    assert ((high + 8) * 16 + low) % 16 == low && ((high + 8) * 16 + low) / 16 == high + 8;
  }

  /** Positions and device EPCs correspond one to one. */
  lemma PositionsAreEpcs(k: nat, epc: byte)
    requires k < 128 && 0x80 <= epc
    ensures EpcAt(k) == epc <==> k == PositionOf(epc)
  {
    EpcOfPosition(epc);
    PositionOfEpc(k);
  }

  /** The EPCs of the set bits among the first `n` positions, in the source's order. */
  function SetEpcs(bitmap: seq<byte>, n: nat): seq<byte>
    requires |bitmap| == 16 && n <= 128
  {
    if n == 0 then []
    else SetEpcs(bitmap, n - 1) + (if Bit(bitmap[(n - 1) / 8], (n - 1) % 8) then [EpcAt(n - 1)] else [])
  }

  function DecodeMap(prop: Property): Result<set<byte>, Error> {
    if !IsMapEpc(prop.epc) then Err(NotAPropertyMap)
    else if prop.data == [] then Err(EmptyMap)
    else
      var count := prop.data[0];
      if count < 16 then
        if |prop.data| != count + 1 then Err(BadListLength) else Distinctly(prop.data[1..])
      else if |prop.data| != 17 then Err(BadBitmapLength)
      else
        var epcs := SetEpcs(prop.data[1..], |prop.data| * 8 - 8);
        if |epcs| != count then Err(BadBitmapCount) else Distinctly(epcs)
  }

  function Distinctly(epcs: seq<byte>): Result<set<byte>, Error> {
    var found := set epc | epc in epcs;
    if |found| != |epcs| then Err(DuplicateInMap) else Ok(found)
  }

  // ----- encoding -----

  function Pack(bits: seq<bool>): nat {
    if bits == [] then 0 else (if bits[0] then 1 else 0) + 2 * Pack(bits[1..])
  }

  function Pow2(n: nat): (r: nat)
    ensures r > 0
  {
    if n == 0 then 1 else 2 * Pow2(n - 1)
  }

  lemma {:induction false} PackBound(bits: seq<bool>)
    ensures Pack(bits) < Pow2(|bits|)
  {
    if bits != [] { PackBound(bits[1..]); }
  }

  lemma {:induction false} PackBit(bits: seq<bool>, h: nat)
    requires h < |bits|
    ensures Bit(Pack(bits), h) == bits[h]
  {
    var v := Pack(bits[1..]);
    assert Pack(bits) % 2 == (if bits[0] then 1 else 0) && Pack(bits) / 2 == v;
    if h > 0 { PackBit(bits[1..], h - 1); }
  }

  lemma {:induction false} BitsDetermine(v: nat, bits: seq<bool>)
    requires v < Pow2(|bits|) && forall h :: 0 <= h < |bits| ==> Bit(v, h) == bits[h]
    ensures v == Pack(bits)
  {
    if bits != [] {
      assert Bit(v, 0) == bits[0];
      forall h | 0 <= h < |bits| - 1 ensures Bit(v / 2, h) == bits[1..][h] {
        assert Bit(v, h + 1) == bits[h + 1];
      }
      BitsDetermine(v / 2, bits[1..]);
    }
  }

  lemma EightBits()
    ensures Pow2(8) == 256
  {
  }

  /** The bits of bitmap byte `low`: one for each high nibble 8 to F. */
  function ByteBits(epcs: set<byte>, low: nat): seq<bool>
    requires low < 16
  {
    seq(8, h requires 0 <= h < 8 => EpcAt(low * 8 + h) in epcs)
  }

  function BitmapByte(epcs: set<byte>, low: nat): byte
    requires low < 16
  {
    PackBound(ByteBits(epcs, low));
    EightBits();
    Pack(ByteBits(epcs, low))
  }

  function Bitmap(epcs: set<byte>): seq<byte> {
    seq(16, low requires 0 <= low < 16 => BitmapByte(epcs, low))
  }

  ghost predicate DeviceEpcs(epcs: set<byte>) {
    forall epc :: epc in epcs ==> 0x80 <= epc
  }

  /** The encoding of a set: its size, then a bitmap when it has 16 EPCs or more. */
  function BitmapData(epcs: set<byte>): seq<byte>
    requires 16 <= |epcs| < 256
  {
    [|epcs|] + Bitmap(epcs)
  }

  // ----- what the bitmap holds -----

  lemma {:induction false} SetEpcsFacts(bitmap: seq<byte>, n: nat)
    requires |bitmap| == 16 && n <= 128
    ensures forall epc :: epc in SetEpcs(bitmap, n) <==>
              0x80 <= epc && PositionOf(epc) < n && Bit(bitmap[PositionOf(epc) / 8], PositionOf(epc) % 8)
    ensures Distinct(SetEpcs(bitmap, n))
  {
    if n > 0 {
      SetEpcsFacts(bitmap, n - 1);
      forall epc: byte | 0x80 <= epc ensures EpcAt(n - 1) == epc <==> n - 1 == PositionOf(epc) {
        PositionsAreEpcs(n - 1, epc);
      }
      assert EpcAt(n - 1) !in SetEpcs(bitmap, n - 1);
    }
  }

  lemma DistinctlyOk(epcs: seq<byte>)
    ensures Distinct(epcs) ==> Distinctly(epcs) == Ok(ElementsOf(epcs))
  {
    if Distinct(epcs) {
      DistinctCardinality(epcs);
      assert ElementsOf(epcs) == set epc | epc in epcs;
    }
  }

  /** A repeated EPC can only be reported for the list form. */
  lemma DuplicatesOnlyInLists(prop: Property)
    requires DecodeMap(prop) == Err(DuplicateInMap)
    ensures prop.data != [] && prop.data[0] < 16 && |prop.data| == prop.data[0] + 1
    ensures !Distinct(prop.data[1..])
  {
    if prop.data[0] >= 16 {
      SetEpcsFacts(prop.data[1..], 128);
      DistinctlyOk(SetEpcs(prop.data[1..], 128));
    } else {
      DistinctlyOk(prop.data[1..]);
    }
  }

  /** Any list of up to 15 different EPCs decodes to its set. */
  lemma ListRoundTrip(epc: byte, epcs: seq<byte>)
    requires IsMapEpc(epc) && |epcs| < 16 && Distinct(epcs)
    ensures DecodeMap(Property(epc, [|epcs|] + epcs)) == Ok(ElementsOf(epcs))
  {
    assert ([|epcs|] + epcs)[1..] == epcs;
    DistinctlyOk(epcs);
  }

  lemma BitmapBits(epcs: set<byte>, k: nat)
    requires k < 128
    ensures Bit(Bitmap(epcs)[k / 8], k % 8) <==> EpcAt(k) in epcs
  {
    var low, h := k / 8, k % 8;
    assert low * 8 + h == k;
    assert ByteBits(epcs, low)[h] == (EpcAt(low * 8 + h) in epcs);
    PackBit(ByteBits(epcs, low), h);
  }

  lemma BitmapHolds(epcs: set<byte>)
    requires DeviceEpcs(epcs)
    ensures ElementsOf(SetEpcs(Bitmap(epcs), 128)) == epcs
    ensures |SetEpcs(Bitmap(epcs), 128)| == |epcs|
    ensures Distinct(SetEpcs(Bitmap(epcs), 128))
  {
    SetEpcsFacts(Bitmap(epcs), 128);
    forall epc: byte | 0x80 <= epc
      ensures Bit(Bitmap(epcs)[PositionOf(epc) / 8], PositionOf(epc) % 8) <==> epc in epcs
    {
      BitmapBits(epcs, PositionOf(epc));
      PositionsAreEpcs(PositionOf(epc), epc);
    }
    DistinctCardinality(SetEpcs(Bitmap(epcs), 128));
  }

  /** Every set of 16 or more EPCs in 80..FF survives the bitmap. */
  lemma BitmapRoundTrip(epc: byte, epcs: set<byte>)
    requires IsMapEpc(epc) && 16 <= |epcs| < 256 && DeviceEpcs(epcs)
    ensures DecodeMap(Property(epc, BitmapData(epcs))) == Ok(epcs)
  {
    assert BitmapData(epcs)[1..] == Bitmap(epcs);
    BitmapHolds(epcs);
    DistinctlyOk(SetEpcs(Bitmap(epcs), 128));
  }

  /** The count byte fits every set of device EPCs. */
  lemma DeviceEpcsFit(epcs: set<byte>)
    requires DeviceEpcs(epcs)
    ensures |epcs| <= 128
  {
    BitmapHolds(epcs);
    SetEpcsLength(Bitmap(epcs), 128);
  }

  lemma {:induction false} SetEpcsLength(bitmap: seq<byte>, n: nat)
    requires |bitmap| == 16 && n <= 128
    ensures |SetEpcs(bitmap, n)| <= n
  {
    if n > 0 { SetEpcsLength(bitmap, n - 1); }
  }

  lemma ByteIsCanonical(bitmap: seq<byte>, epcs: set<byte>, low: nat)
    requires |bitmap| == 16 && low < 16
    requires forall epc :: epc in epcs <==>
               0x80 <= epc && Bit(bitmap[PositionOf(epc) / 8], PositionOf(epc) % 8)
    ensures bitmap[low] == BitmapByte(epcs, low)
  {
    forall h | 0 <= h < 8 ensures Bit(bitmap[low], h) == ByteBits(epcs, low)[h] {
      PositionOfEpc(low * 8 + h);
      assert (low * 8 + h) / 8 == low && (low * 8 + h) % 8 == h;
    }
    EightBits();
    BitsDetermine(bitmap[low], ByteBits(epcs, low));
  }

  /** An accepted bitmap is the one encoding of the set it decodes to. */
  lemma AcceptedBitmapIsCanonical(prop: Property)
    requires DecodeMap(prop).Ok? && prop.data[0] >= 16
    ensures var epcs := DecodeMap(prop).value;
            16 <= |epcs| < 256 && DeviceEpcs(epcs) && prop.data == BitmapData(epcs)
  {
    var bitmap, epcs := prop.data[1..], DecodeMap(prop).value;
    SetEpcsFacts(bitmap, 128);
    forall low | 0 <= low < 16 ensures bitmap[low] == BitmapByte(epcs, low) {
      ByteIsCanonical(bitmap, epcs, low);
    }
    assert bitmap == Bitmap(epcs);
    assert prop.data == [prop.data[0]] + bitmap;
  }

  /** Only the properties 9D, 9E and 9F are maps. */
  lemma MapEpcsExactly(epc: byte)
    ensures IsMapEpc(epc) <==> 0x9D <= epc <= 0x9F
  {
  }

  lemma {:induction false} BitExactly(v: nat, h: nat)
    ensures Bit(v, h) <==> v / Pow2(h) % 2 == 1
  {
    if h > 0 {
      BitExactly(v / 2, h - 1);
      HalveThenDivide(v, Pow2(h - 1));
    }
  }

  lemma HalveThenDivide(v: nat, p: nat)
    requires p > 0
    ensures v / 2 / p == v / (2 * p)
  {
    var q, r := v / (2 * p), v % (2 * p);
    assert v == 2 * p * q + r && 0 <= r < 2 * p;
    assert v / 2 == p * q + r / 2;
    assert 0 <= r / 2 < p;
    QuotientIs(v / 2, p, q, r / 2);
  }

  lemma MultipleBound(p: nat, k: int)
    requires p > 0
    ensures k >= 1 ==> p * k >= p
    ensures k <= -1 ==> p * k <= 0 - p
  {
    if k >= 1 {
      assert p * k == p + p * (k - 1);
    } else if k <= -1 {
      assert p * k == 0 - p + p * (k + 1);
    }
  }

  lemma QuotientIs(n: nat, p: nat, q: nat, r: nat)
    requires p > 0 && n == p * q + r && r < p
    ensures n / p == q
  {
    var d := n / p;
    assert p * (q - d) == n % p - r;
    MultipleBound(p, q - d);
  }

  lemma PlaceOf(i: nat, j: nat)
    requires i < 16 && j < 8
    ensures PositionOf(0x80 + 0x10 * j + i) == 8 * i + j && (8 * i + j) / 8 == i && (8 * i + j) % 8 == j
  {
    var epc: byte := 0x80 + 0x10 * j + i;
    assert epc % 16 == i && epc / 16 == 8 + j;
  }

  lemma BitmapValue(prop: Property)
    requires DecodeMap(prop).Ok? && prop.data[0] >= 16
    ensures |prop.data| == 17 && DecodeMap(prop).value == ElementsOf(SetEpcs(prop.data[1..], 128))
  {
    DistinctlyExactly(SetEpcs(prop.data[1..], 128));
  }

  /** Where each EPC is in an accepted bitmap: bit `j` of byte `i` stands for the EPC with
      high nibble 8 + j and low nibble i. */
  lemma BitmapMeans(prop: Property, i: nat, j: nat)
    requires DecodeMap(prop).Ok? && prop.data[0] >= 16 && i < 16 && j < 8
    ensures |prop.data| == 17
    ensures 0x80 + 0x10 * j + i in DecodeMap(prop).value <==> prop.data[1 + i] as int / Pow2(j) % 2 == 1
  {
    BitmapValue(prop);
    PlaceOf(i, j);
    SetEpcsFacts(prop.data[1..], 128);
    BitExactly(prop.data[1 + i], j);
  }

  /** Exactly which map properties are accepted. */
  lemma MapsExactly(prop: Property)
    ensures DecodeMap(prop).Ok? <==>
              && 0x9D <= prop.epc <= 0x9F && prop.data != []
              && (prop.data[0] < 16 ==> |prop.data| == 1 + prop.data[0] as int && Distinct(prop.data[1..]))
              && (prop.data[0] >= 16 ==>
                    |prop.data| == 17 && |ElementsOf(SetEpcs(prop.data[1..], 128))| == prop.data[0] as int)
    ensures DecodeMap(prop).Ok? && prop.data[0] < 16 ==> DecodeMap(prop).value == ElementsOf(prop.data[1..])
  {
    if prop.data != [] {
      DistinctlyExactly(prop.data[1..]);
      if |prop.data| == 17 {
        SetEpcsFacts(prop.data[1..], 128);
        DistinctlyExactly(SetEpcs(prop.data[1..], 128));
        DistinctCardinality(SetEpcs(prop.data[1..], 128));
      }
    }
  }

  lemma DistinctlyExactly(epcs: seq<byte>)
    ensures Distinctly(epcs) == if Distinct(epcs) then Ok(ElementsOf(epcs)) else Err(DuplicateInMap)
  {
    DistinctlyOk(epcs);
    if !Distinct(epcs) {
      RepetitionShrinks(epcs);
      assert ElementsOf(epcs) == set epc | epc in epcs;
    }
  }

  /** What is wrong with a refused map. */
  lemma MapErrors(prop: Property)
    ensures DecodeMap(prop) == Err(NotAPropertyMap) <==> !(0x9D <= prop.epc <= 0x9F)
    ensures DecodeMap(prop) == Err(EmptyMap) <==> 0x9D <= prop.epc <= 0x9F && prop.data == []
    ensures DecodeMap(prop) == Err(BadListLength) <==>
              0x9D <= prop.epc <= 0x9F && prop.data != [] && prop.data[0] < 16 && |prop.data| != 1 + prop.data[0] as int
    ensures DecodeMap(prop) == Err(BadBitmapLength) <==>
              0x9D <= prop.epc <= 0x9F && prop.data != [] && prop.data[0] >= 16 && |prop.data| != 17
    ensures DecodeMap(prop) == Err(BadBitmapCount) <==>
              && 0x9D <= prop.epc <= 0x9F && |prop.data| == 17 && prop.data[0] >= 16
              && |ElementsOf(SetEpcs(prop.data[1..], 128))| != prop.data[0] as int
  {
    if prop.data != [] {
      DistinctlyExactly(prop.data[1..]);
      if |prop.data| == 17 {
        SetEpcsFacts(prop.data[1..], 128);
        DistinctlyExactly(SetEpcs(prop.data[1..], 128));
        DistinctCardinality(SetEpcs(prop.data[1..], 128));
      }
    }
  }

  /** Every map property among `properties` decodes. */
  ghost predicate AllDecode(properties: seq<Property>) {
    forall i :: 0 <= i < |properties| && IsMapEpc(properties[i].epc) ==> DecodeMap(properties[i]).Ok?
  }

  ghost predicate NoMapTwice(properties: seq<Property>) {
    forall i, j :: 0 <= i < j < |properties| && IsMapEpc(properties[i].epc) ==> properties[i].epc != properties[j].epc
  }

  /** `maps` holds the decoded set of each map property, and nothing else. */
  ghost predicate MapsOf(properties: seq<Property>, maps: map<byte, set<byte>>) {
    && (forall i :: 0 <= i < |properties| && IsMapEpc(properties[i].epc) ==>
          properties[i].epc in maps && Ok(maps[properties[i].epc]) == DecodeMap(properties[i]))
    && (forall epc :: epc in maps ==> IsMapEpc(epc) && HasProperty(properties, epc))
  }

  ghost predicate HasProperty(properties: seq<Property>, epc: byte) {
    exists i :: 0 <= i < |properties| && properties[i].epc == epc
  }

  lemma AddMap(properties: seq<Property>, maps: map<byte, set<byte>>, prop: Property)
    requires MapsOf(properties, maps) && NoMapTwice(properties)
    requires IsMapEpc(prop.epc) && prop.epc !in maps && DecodeMap(prop).Ok?
    ensures MapsOf(properties + [prop], maps[prop.epc := DecodeMap(prop).value]) && NoMapTwice(properties + [prop])
  {
    var more := properties + [prop];
    assert more[|properties|] == prop;
    forall epc | HasProperty(properties, epc) ensures HasProperty(more, epc) {
      var i :| 0 <= i < |properties| && properties[i].epc == epc;
      assert more[i].epc == epc;
    }
  }

  lemma SkipProperty(properties: seq<Property>, maps: map<byte, set<byte>>, prop: Property)
    requires MapsOf(properties, maps) && NoMapTwice(properties) && !IsMapEpc(prop.epc)
    ensures MapsOf(properties + [prop], maps) && NoMapTwice(properties + [prop])
  {
    var more := properties + [prop];
    forall epc | HasProperty(properties, epc) ensures HasProperty(more, epc) {
      var i :| 0 <= i < |properties| && properties[i].epc == epc;
      assert more[i].epc == epc;
    }
  }

  /** The maps of one frame, by EPC. */
  method DecodePropertyMaps(properties: seq<Property>) returns (r: Result<map<byte, set<byte>>, Error>)
    ensures r.Ok? <==> AllDecode(properties) && NoMapTwice(properties)
    ensures r.Ok? ==> MapsOf(properties, r.value)
  {
    var maps: map<byte, set<byte>> := map[];
    for i := 0 to |properties|
      invariant MapsOf(properties[..i], maps) && NoMapTwice(properties[..i])
    {
      var prop := properties[i];
      assert properties[..i + 1] == properties[..i] + [prop];
      if IsMapEpc(prop.epc) {
        if prop.epc in maps {
          assert HasProperty(properties[..i], prop.epc);
          return Err(DuplicateMap);
        }
        var decoded := DecodeMap(prop);
        if decoded.Err? { return Err(decoded.error); }
        AddMap(properties[..i], maps, prop);
        maps := maps[prop.epc := decoded.value];
      } else {
        SkipProperty(properties[..i], maps, prop);
      }
    }
    assert properties[..|properties|] == properties;
    r := Ok(maps);
  }
}
