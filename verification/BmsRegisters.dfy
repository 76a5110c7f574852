/**
 The register copies of the BMS data. Replies carry 16-bit fields big-endian;
 the copies hold them little-endian. Where the fields of register 0x03 lie
 depends on the number of temperature sensors, which the reply itself states.
 */
module BmsRegisters {
  import opened Bytes

  const REGISTER03_LENGTH := 64
  const REGISTER04_LENGTH := 32
  const REGISTER05_LENGTH := 32

  const SOFTWARE_VERSION := 18
  const NTC_COUNT := 22
  const NTC_READINGS := 23
  const NTC_LIMIT := 20 // as many readings as register 0x03 can hold

  ghost function SwapAt(d: seq<u8>, i: nat): (r: seq<u8>)
    requires i + 1 < |d|
    ensures |r| == |d|
  {
    d[i := d[i + 1]][i + 1 := d[i]]
  }

  /** Swaps the pairs that start at `from`, `from + 2`, ... below `to`. */
  ghost function SwapPairs(d: seq<u8>, from: nat, to: int): (r: seq<u8>)
    requires from < to ==> to < |d| || (to == |d| && (to - from) % 2 == 0)
    ensures |r| == |d|
    decreases if from < to then to - from else 0
  {
    if from < to then SwapPairs(SwapAt(d, from), from + 2, to) else d
  }

  /** Where the byte that ends up at `k` comes from: pairs in the range trade places, the rest stays. */
  ghost function Origin(k: nat, from: nat, to: int): nat {
    if from <= k < to && (k - from) % 2 == 0 then k + 1
    else if from < k <= to && (k - from) % 2 == 1 then k - 1
    else k
  }

  lemma {:induction false} SwapPairsAt(d: seq<u8>, from: nat, to: int, k: nat)
    requires from < to ==> to < |d| || (to == |d| && (to - from) % 2 == 0)
    requires k < |d|
    ensures Origin(k, from, to) < |d| && SwapPairs(d, from, to)[k] == d[Origin(k, from, to)]
    decreases if from < to then to - from else 0
  {
    if from < to {
      SwapPairsAt(SwapAt(d, from), from + 2, to, k);
    }
  }

  // ---------------------------------------------------------------------------
  // Register 0x03

  // Which cells the loops of `copyReg03` write, for a previous reply of `length` bytes, a reply of `size` bytes, and
  // the count byte `n` that is read in between.

  ghost predicate CopyWrites(length: nat, size: nat, k: nat) {
    k < size && k < length
  }

  /** The swap at some `i`, of `from`, `from + 2`, ... below `to`, writes the cells `i` and `i + 1`. */
  ghost predicate SwapWrites(from: nat, to: int, k: nat) {
    (from <= k < to && (k - from) % 2 == 0) || (from < k <= to && (k - from) % 2 == 1)
  }

  ghost predicate Writes03(length: nat, size: nat, n: nat, k: nat) {
    || CopyWrites(length, size, k)
    || SwapWrites(0, Min(SOFTWARE_VERSION, length), k)
    || SwapWrites(NTC_READINGS, Min(NTC_READINGS + 2 * n, length), k)
    || SwapWrites(NTC_READINGS + 2 * n + 1, length, k)
  }

  ghost predicate StaysInside(length: nat, size: nat, n: nat) {
    forall k: nat :: Writes03(length, size, n, k) ==> k < REGISTER03_LENGTH
  }

  /** Everything is written inside the register exactly when the previous reply was shorter than it, or as long and
      the count read is one the register can hold. */
  lemma StaysInsideIff(length: nat, size: nat, n: nat)
    ensures StaysInside(length, size, n) <==>
      length < REGISTER03_LENGTH || (length == REGISTER03_LENGTH && n <= NTC_LIMIT)
  {
    if length >= REGISTER03_LENGTH && n > NTC_LIMIT {
      assert SwapWrites(NTC_READINGS, Min(NTC_READINGS + 2 * n, length), REGISTER03_LENGTH);
      assert Writes03(length, size, n, REGISTER03_LENGTH);
    } else if length > REGISTER03_LENGTH {
      assert SwapWrites(NTC_READINGS + 2 * n + 1, length, REGISTER03_LENGTH);
      assert Writes03(length, size, n, REGISTER03_LENGTH);
    }
  }

  /** It happens: a count of 21 after a reply of 64 bytes. */
  lemma WritesPastTheEnd(size: nat)
    ensures Writes03(64, size, 21, 64)
  {
    assert SwapWrites(NTC_READINGS, 64, 64);
  }

  /** A swapping loop can run exactly when it writes inside. */
  lemma SwapsInsideIff(size: nat, from: nat, to: int)
    ensures (from < to ==> to < size || (to == size && (to - from) % 2 == 0))
      <==> forall k: nat :: SwapWrites(from, to, k) ==> k < size
  {
    if from < to && to >= size && !(to == size && (to - from) % 2 == 0) {
      assert SwapWrites(from, to, if from >= size then from else size);
    }
  }

  /** The count byte `copyReg03` reads, after it has copied. */
  ghost function CountRead(reg: seq<u8>, length: nat, data: seq<u8>): nat
    requires |reg| == REGISTER03_LENGTH
  {
    if length <= NTC_COUNT then 0xff else if NTC_COUNT < |data| then data[NTC_COUNT] else reg[NTC_COUNT]
  }

  /** A reply that is stored inside the register. */
  ghost predicate Fits03(reg: seq<u8>, length: nat, data: seq<u8>) {
    && |reg| == REGISTER03_LENGTH
    && (length < REGISTER03_LENGTH || (length == REGISTER03_LENGTH && CountRead(reg, length, data) <= NTC_LIMIT))
  }

  lemma FitsIff(reg: seq<u8>, length: nat, data: seq<u8>)
    requires |reg| == REGISTER03_LENGTH
    ensures Fits03(reg, length, data) <==> StaysInside(length, |data|, CountRead(reg, length, data))
  {
    hide StaysInside;
    StaysInsideIff(length, |data|, CountRead(reg, length, data));
  }

  /** A whole reply fits whenever the one before it was no longer than the register. */
  lemma WholeFits(reg: seq<u8>, length: nat, data: seq<u8>)
    requires |reg| == REGISTER03_LENGTH && Whole03(data)
    ensures Fits03(reg, length, data) <==> length <= REGISTER03_LENGTH
  {
  }

  /** `copyReg03`. The copy stops at `length`, the length of the reply before this one. */
  ghost function Copied03(reg: seq<u8>, length: nat, data: seq<u8>): (r: seq<u8>)
    requires Fits03(reg, length, data)
    ensures |r| == REGISTER03_LENGTH
    ensures SensorCount(r, length) == CountRead(reg, length, data)
  {
    var m := Min(|data|, length);
    data[..m] + reg[m..]
  }

  ghost function SensorCount(reg: seq<u8>, length: nat): nat
    requires length <= |reg|
  {
    if NTC_COUNT < length then reg[NTC_COUNT] else 0xff
  }

  ghost predicate Swappable03(d: seq<u8>, length: nat) {
    && |d| == REGISTER03_LENGTH && length <= REGISTER03_LENGTH
    && (length == REGISTER03_LENGTH ==> d[NTC_COUNT] <= NTC_LIMIT)
  }

  ghost function Swapped03(d: seq<u8>, length: nat): (r: seq<u8>)
    requires Swappable03(d, length)
    ensures |r| == REGISTER03_LENGTH
  {
    var n := SensorCount(d, length);
    var d1 := SwapPairs(d, 0, Min(SOFTWARE_VERSION, length));
    var d2 := SwapPairs(d1, NTC_READINGS, Min(NTC_READINGS + 2 * n, length));
    SwapPairs(d2, NTC_READINGS + 2 * n + 1, length)
  }

  ghost function Next03(reg: seq<u8>, length: nat, data: seq<u8>): (r: seq<u8>)
    requires Fits03(reg, length, data)
    ensures |r| == REGISTER03_LENGTH
  {
    Swapped03(Copied03(reg, length, data), length)
  }

  lemma SwapPairsOutside(d: seq<u8>, from: nat, to: int, k: nat)
    requires from < to ==> to < |d| || (to == |d| && (to - from) % 2 == 0)
    requires k < |d| && (k < from || to < k)
    ensures SwapPairs(d, from, to)[k] == d[k]
  {
    SwapPairsAt(d, from, to, k);
  }

  // The sensor count keeps its place in each of the three loops.

  lemma FixedWordsKeepSensors(d: seq<u8>, length: nat)
    requires |d| == REGISTER03_LENGTH
    ensures SwapPairs(d, 0, Min(SOFTWARE_VERSION, length))[NTC_COUNT] == d[NTC_COUNT]
  {
    SwapPairsOutside(d, 0, Min(SOFTWARE_VERSION, length), NTC_COUNT);
  }

  lemma ReadingsKeepSensors(d: seq<u8>, length: nat, n: nat)
    requires |d| == REGISTER03_LENGTH && length <= REGISTER03_LENGTH
    requires length == REGISTER03_LENGTH ==> n <= NTC_LIMIT
    ensures SwapPairs(d, NTC_READINGS, Min(NTC_READINGS + 2 * n, length))[NTC_COUNT] == d[NTC_COUNT]
  {
    SwapPairsOutside(d, NTC_READINGS, Min(NTC_READINGS + 2 * n, length), NTC_COUNT);
  }

  lemma LastWordsKeepSensors(d: seq<u8>, length: nat, n: nat)
    requires |d| == REGISTER03_LENGTH && length <= REGISTER03_LENGTH
    ensures SwapPairs(d, NTC_READINGS + 2 * n + 1, length)[NTC_COUNT] == d[NTC_COUNT]
  {
    SwapPairsOutside(d, NTC_READINGS + 2 * n + 1, length, NTC_COUNT);
  }

  lemma SensorsKept(d: seq<u8>, length: nat)
    requires Swappable03(d, length)
    ensures Swapped03(d, length)[NTC_COUNT] == d[NTC_COUNT]
  {
    var n := SensorCount(d, length);
    var d1 := SwapPairs(d, 0, Min(SOFTWARE_VERSION, length));
    var d2 := SwapPairs(d1, NTC_READINGS, Min(NTC_READINGS + 2 * n, length));
    assert d2[NTC_COUNT] == d[NTC_COUNT] by {
      FixedWordsKeepSensors(d, length);
      ReadingsKeepSensors(d1, length, n);
    }
    LastWordsKeepSensors(d2, length, n);
  }

  // The layout of a register 0x03 reply with n sensor readings, field by field.

  /** A 16-bit field starts at offset `o`: nine fixed fields, the readings, and the fields behind the humidity byte. */
  ghost predicate WordAt(o: nat, n: nat) {
    || (o < SOFTWARE_VERSION && o % 2 == 0)
    || (NTC_READINGS <= o < NTC_READINGS + 2 * n && o % 2 == 1)
    || (NTC_READINGS + 2 * n < o && o % 2 == 0)
  }

  /** A one-byte field is at offset `o`: the five fixed ones, and the humidity. */
  ghost predicate ByteAt(o: nat, n: nat) {
    SOFTWARE_VERSION <= o < NTC_READINGS || o == NTC_READINGS + 2 * n
  }

  /** A whole reply: the stated readings are there, and no field is cut off. */
  ghost predicate Whole03(data: seq<u8>) {
    && NTC_READINGS < |data| <= REGISTER03_LENGTH && |data| % 2 == 0
    && NTC_READINGS + 2 * Sensors(data) < |data|
  }

  ghost function Sensors(data: seq<u8>): nat
    requires NTC_COUNT < |data|
  {
    data[NTC_COUNT]
  }

  /** The copy has every field of the reply: words in the other byte order, bytes unchanged. */
  ghost predicate SameFields03(data: seq<u8>, reg: seq<u8>)
    requires Whole03(data) && |reg| == REGISTER03_LENGTH
  {
    var n := Sensors(data);
    && (forall o :: 0 <= o < |data| - 1 && WordAt(o, n) ==>
         LittleEndian(reg[o], reg[o + 1]) == BigEndian(data[o], data[o + 1]))
    && (forall o :: 0 <= o < |data| && ByteAt(o, n) ==> reg[o] == data[o])
  }

  /** Every byte of a whole reply belongs to exactly one field. */
  lemma FieldsPartition(data: seq<u8>, o: nat)
    requires Whole03(data) && o < |data|
    ensures var n := Sensors(data);
      var inWord := WordAt(o, n) && o + 1 < |data|;
      var inWordBefore := o > 0 && WordAt(o - 1, n);
      && (inWord || inWordBefore || ByteAt(o, n))
      && !(inWord && inWordBefore) && !(inWord && ByteAt(o, n)) && !(inWordBefore && ByteAt(o, n))
  {
  }

  ghost function Origin03(k: nat, length: nat, n: nat): nat {
    Origin(Origin(Origin(k, NTC_READINGS + 2 * n + 1, length),
                  NTC_READINGS, Min(NTC_READINGS + 2 * n, length)),
           0, SOFTWARE_VERSION)
  }

  lemma Swapped03At(d: seq<u8>, length: nat, k: nat)
    requires Swappable03(d, length) && NTC_COUNT < length
    requires k < REGISTER03_LENGTH
    ensures var o := Origin03(k, length, Sensors(d)); o < |d| && Swapped03(d, length)[k] == d[o]
  {
    hide SwapPairs, Origin;
    var n := Sensors(d);
    var d1 := SwapPairs(d, 0, SOFTWARE_VERSION);
    var m := Min(NTC_READINGS + 2 * n, length);
    var d2 := SwapPairs(d1, NTC_READINGS, m);
    SwapPairsAt(d2, NTC_READINGS + 2 * n + 1, length, k);
    var k2 := Origin(k, NTC_READINGS + 2 * n + 1, length);
    SwapPairsAt(d1, NTC_READINGS, m, k2);
    SwapPairsAt(d, 0, SOFTWARE_VERSION, Origin(k2, NTC_READINGS, m));
  }

  /** The copy after a reply, whatever it held before, has the fields of that reply
      exactly when the previous reply was at least as long. */
  lemma FieldsCopiedIff(data: seq<u8>, length: nat)
    requires Whole03(data) && length <= REGISTER03_LENGTH
    ensures length >= |data| <==>
      forall reg :: Fits03(reg, length, data) ==> SameFields03(data, Next03(reg, length, data))
  {
    if length >= |data| {
      forall reg | Fits03(reg, length, data)
        ensures SameFields03(data, Next03(reg, length, data))
      {
        FieldsCopied(data, length, reg);
      }
    } else {
      FieldsStale(data, length);
    }
  }

  lemma WordCopied(data: seq<u8>, length: nat, reg: seq<u8>, o: nat)
    requires Whole03(data) && Fits03(reg, length, data) && length >= |data|
    requires o < |data| - 1 && WordAt(o, Sensors(data))
    ensures Next03(reg, length, data)[o] == data[o + 1] && Next03(reg, length, data)[o + 1] == data[o]
  {
    hide Swapped03;
    var d := Copied03(reg, length, data);
    assert d[..|data|] == data && Sensors(d) == Sensors(data);
    Swapped03At(d, length, o);
    Swapped03At(d, length, o + 1);
  }

  lemma ByteCopied(data: seq<u8>, length: nat, reg: seq<u8>, o: nat)
    requires Whole03(data) && Fits03(reg, length, data) && length >= |data|
    requires o < |data| && ByteAt(o, Sensors(data))
    ensures Next03(reg, length, data)[o] == data[o]
  {
    hide Swapped03;
    var d := Copied03(reg, length, data);
    assert d[..|data|] == data && Sensors(d) == Sensors(data);
    Swapped03At(d, length, o);
  }

  lemma FieldsCopied(data: seq<u8>, length: nat, reg: seq<u8>)
    requires Whole03(data) && Fits03(reg, length, data) && length >= |data|
    ensures SameFields03(data, Next03(reg, length, data))
  {
    hide Next03, WordAt, ByteAt;
    forall o: nat | o < |data| - 1 && WordAt(o, Sensors(data))
      ensures Next03(reg, length, data)[o] == data[o + 1] && Next03(reg, length, data)[o + 1] == data[o]
    {
      WordCopied(data, length, reg, o);
    }
    forall o: nat | o < |data| && ByteAt(o, Sensors(data))
      ensures Next03(reg, length, data)[o] == data[o]
    {
      ByteCopied(data, length, reg, o);
    }
  }

  /** After a shorter reply the last byte is not copied: old content shows through in its field. */
  lemma FieldsStale(data: seq<u8>, length: nat)
    requires Whole03(data) && length < |data|
    ensures exists reg :: Fits03(reg, length, data) && !SameFields03(data, Next03(reg, length, data))
  {
    var last := |data| - 1;
    var n := Sensors(data);
    var x: u8 := if 0 !in {data[last], data[last - 1]} then 0 else if 1 !in {data[last], data[last - 1]} then 1 else 2;
    var reg := seq(REGISTER03_LENGTH, (i: nat) => x)[NTC_COUNT := 0];
    var r := Next03(reg, length, data);
    OldByteShows(data, length, reg);
    assert r[last] == x || (WordAt(last - 1, n) && r[last - 1] == x);
    assert ByteAt(last, n) || WordAt(last - 1, n);
    assert !SameFields03(data, r);
  }

  lemma OldByteShows(data: seq<u8>, length: nat, reg: seq<u8>)
    requires Whole03(data) && Fits03(reg, length, data) && length < |data|
    ensures var r, last := Next03(reg, length, data), |data| - 1;
      r[last] == reg[last] || (WordAt(last - 1, Sensors(data)) && r[last - 1] == reg[last])
  {
    var d := Copied03(reg, length, data);
    var last := |data| - 1;
    if length <= NTC_COUNT {
      var d1 := SwapPairs(d, 0, Min(SOFTWARE_VERSION, length));
      SwapPairsAt(d, 0, Min(SOFTWARE_VERSION, length), last);
    } else {
      hide Swapped03;
      Swapped03At(d, length, last);
      Swapped03At(d, length, last - 1);
    }
  }

  /** The first reply after a start is not copied at all: the length before it is zero. */
  lemma FirstReplyLost(data: seq<u8>, reg: seq<u8>)
    requires Fits03(reg, 0, data)
    ensures Next03(reg, 0, data) == reg
  {
  }

  // ---------------------------------------------------------------------------
  // Register 0x04

  ghost function Cell04(reg: seq<u8>, data: seq<u8>, k: nat): u8
    requires k < |reg|
  {
    if k % 2 == 0 && k + 1 < |data| then data[k + 1]
    else if k % 2 == 1 && k < |data| then data[k - 1]
    else reg[k]
  }

  /** `copyReg04`: whole pairs, swapped as they are copied. */
  ghost function Next04(reg: seq<u8>, data: seq<u8>): (r: seq<u8>)
    requires |reg| == REGISTER04_LENGTH
    ensures |r| == REGISTER04_LENGTH
  {
    seq(REGISTER04_LENGTH, (k: nat) requires k < REGISTER04_LENGTH => Cell04(reg, data, k))
  }

  /** Every cell voltage that fits is held in the other byte order. */
  ghost predicate SameCells04(data: seq<u8>, reg: seq<u8>)
    requires |reg| == REGISTER04_LENGTH
  {
    forall o :: 0 <= o < Min(|data|, REGISTER04_LENGTH) - 1 && o % 2 == 0 ==>
      LittleEndian(reg[o], reg[o + 1]) == BigEndian(data[o], data[o + 1])
  }

  lemma CellsCopied(reg: seq<u8>, data: seq<u8>)
    requires |reg| == REGISTER04_LENGTH
    ensures SameCells04(data, Next04(reg, data))
  {
    var r := Next04(reg, data);
    forall o | 0 <= o < Min(|data|, REGISTER04_LENGTH) - 1 && o % 2 == 0
      ensures LittleEndian(r[o], r[o + 1]) == BigEndian(data[o], data[o + 1])
    {
      assert r[o] == data[o + 1];
      assert r[o + 1] == data[o];
    }
  }

  // ---------------------------------------------------------------------------
  // Register 0x05

  /** `copyReg05`. */
  ghost function Next05(reg: seq<u8>, data: seq<u8>): (r: seq<u8>)
    requires |reg| == REGISTER05_LENGTH
    ensures |r| == REGISTER05_LENGTH
  {
    var m := Min(|data|, REGISTER05_LENGTH);
    data[..m] + reg[m..]
  }

  /** What a cell of the copy becomes: the reply's byte as far as the reply reaches. */
  lemma Cell05(reg: seq<u8>, data: seq<u8>, k: nat)
    requires |reg| == REGISTER05_LENGTH && k < 32
    ensures Next05(reg, data)[k] == if k < |data| then data[k] else reg[k]
  {
  }

  /** The same for register 0x04, where a cell is reached with the whole of its pair. */
  lemma CellOf04(reg: seq<u8>, data: seq<u8>, k: nat)
    requires |reg| == REGISTER04_LENGTH && k < 32
    ensures Next04(reg, data)[k] ==
      if k % 2 == 0 then if k + 1 < |data| then data[k + 1] else reg[k]
      else if k < |data| then data[k - 1] else reg[k]
  {
  }
}
