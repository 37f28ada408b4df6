/** The reader: splits a byte source into the word-length-position table and the data array,
    refuses a layout the validator rejects, and gives bounds-checked reads of both. */
module Reader {
  import opened Wrappers
  import opened Validator

  /** The table entries are unsigned 32-bit integers, read little-endian. */
  predicate IsU32(x: int)
  {
    0 <= x < 0x1_0000_0000
  }

  function U32(b0: byte, b1: byte, b2: byte, b3: byte): (x: nat)
    ensures IsU32(x)
  {
    b0 + 0x100 * b1 + 0x1_0000 * b2 + 0x100_0000 * b3
  }

  /** array('I').frombytes on a byte string whose length is a multiple of four. */
  function DecodeU32s(bytes: seq<byte>): (t: seq<nat>)
    requires |bytes| % 4 == 0
    ensures |t| == |bytes| / 4
    ensures forall i :: 0 <= i < |t| ==> IsU32(t[i])
  {
    if |bytes| == 0 then []
    else [U32(bytes[0], bytes[1], bytes[2], bytes[3])] + DecodeU32s(bytes[4..])
  }

  /** The layout of the table in the source, as the producer writes it. */
  function EncodeU32s(t: seq<nat>): (bytes: seq<byte>)
    requires forall i :: 0 <= i < |t| ==> IsU32(t[i])
    ensures |bytes| == 4 * |t|
  {
    if t == [] then []
    else
      var x := t[0];
      assert IsU32(x);
      var head: seq<byte> := [x % 0x100, (x / 0x100) % 0x100, (x / 0x1_0000) % 0x100, x / 0x100_0000];
      head + EncodeU32s(t[1..])
  }

  datatype Split = Split(wlp: seq<nat>, data: seq<byte>)

  /** _read_data without its final validation: byte 0 is N, the next 4 * N bytes (or as many as
      there are) are the table, everything after them is the data array. An empty source makes
      the one-byte unpack fail, a table cut inside an entry makes frombytes fail, and an N outside
      2..255 stops the read at once. */
  function ReadData(source: seq<byte>): (r: Result<Split>)
    ensures |source| == 0 ==> r == Err(StructError)
    ensures |source| > 0 && !IsWlpLengthValid(source[0]) ==> r == Err(InvalidDatabase)
    ensures r.Ok? ==> IsWlpLengthValid(source[0]) && |r.value.wlp| <= source[0]
    ensures |source| > 0 && IsWlpLengthValid(source[0]) ==>
      (r.Err? ==> r == Err(ValueError)) &&
      (r == Err(ValueError) <==> |source| - 1 < 4 * (source[0] as int) && (|source| - 1) % 4 != 0)
    ensures r.Ok? ==>
      |r.value.wlp| == if |source| - 1 < 4 * (source[0] as int) then (|source| - 1) / 4 else source[0]
    ensures r.Ok? ==> forall i :: 0 <= i < |r.value.wlp| ==> IsU32(r.value.wlp[i])
    ensures r.Ok? ==> source == [source[0]] + EncodeU32s(r.value.wlp) + r.value.data
  {
    if |source| == 0 then Err(StructError)
    else
      var n: int := source[0];
      if !IsWlpLengthValid(n) then Err(InvalidDatabase)
      else
        var tableEnd := if 1 + 4 * n <= |source| then 1 + 4 * n else |source|;
        var tableBytes := source[1..tableEnd];
        if |tableBytes| % 4 != 0 then Err(ValueError)
        else
          var wlp := DecodeU32s(tableBytes);
          EncodeDecode(tableBytes);
          assert source == [source[0]] + tableBytes + source[tableEnd..];
          Ok(Split(wlp, source[tableEnd..]))
  }

  /** Division by a positive d has a unique quotient and remainder. */
  lemma DivModUnique(x: int, q: int, r: int, d: int)
    requires 0 < d && 0 <= r < d && x == q * d + r
    ensures x / d == q && x % d == r
  {
    var e := q - x / d;
    assert e * d == x % d - r;
    MulAwayFromZero(e, d);
  }

  /** A non-zero multiple of a positive d is at least d away from zero. */
  lemma MulAwayFromZero(e: int, d: int)
    requires 0 < d
    ensures e >= 1 ==> e * d >= d
    ensures e <= -1 ==> e * d <= -d
  {
    if e >= 1 {
      assert e * d == (e - 1) * d + d;
    } else if e <= -1 {
      assert e * d == (e + 1) * d - d;
    }
  }

  /** The four bytes of an entry are its base-256 digits, lowest first. */
  lemma DigitsOfU32(b0: byte, b1: byte, b2: byte, b3: byte)
    ensures var x := U32(b0, b1, b2, b3);
      x % 0x100 == b0 && (x / 0x100) % 0x100 == b1 && (x / 0x1_0000) % 0x100 == b2 && x / 0x100_0000 == b3
  {
    var x := U32(b0, b1, b2, b3);
    var q2 := b2 + 0x100 * b3;
    var q1 := b1 + 0x100 * q2;
    DivModUnique(x, q1, b0, 0x100);
    DivModUnique(q1, q2, b1, 0x100);
    DivModUnique(q2, b3, b2, 0x100);
    DivModUnique(x, q2, b0 + 0x100 * b1, 0x1_0000);
    DivModUnique(x, b3, b0 + 0x100 * b1 + 0x1_0000 * b2, 0x100_0000);
  }

  /** Decoding then encoding a table gives back its bytes. */
  lemma {:induction false} EncodeDecode(bytes: seq<byte>)
    requires |bytes| % 4 == 0
    ensures EncodeU32s(DecodeU32s(bytes)) == bytes
    decreases |bytes|
  {
    if |bytes| > 0 {
      EncodeDecode(bytes[4..]);
      DigitsOfU32(bytes[0], bytes[1], bytes[2], bytes[3]);
      var t := DecodeU32s(bytes);
      assert t[1..] == DecodeU32s(bytes[4..]);
      assert bytes == bytes[..4] + bytes[4..];
    }
  }

  /** Encoding then decoding a table gives back its entries. */
  lemma {:induction false} DecodeEncode(t: seq<nat>)
    requires forall i :: 0 <= i < |t| ==> IsU32(t[i])
    ensures DecodeU32s(EncodeU32s(t)) == t
    decreases |t|
  {
    if t != [] {
      DecodeEncode(t[1..]);
      var e := EncodeU32s(t);
      assert e[4..] == EncodeU32s(t[1..]);
      U32OfEncoding(t[0]);
    }
  }

  lemma U32OfEncoding(x: nat)
    requires IsU32(x)
    ensures U32(x % 0x100, (x / 0x100) % 0x100, (x / 0x1_0000) % 0x100, x / 0x100_0000) == x
  {
    var b0, b1, b2, b3 := x % 0x100, (x / 0x100) % 0x100, (x / 0x1_0000) % 0x100, x / 0x100_0000;
    assert x / 0x100 == b1 + 0x100 * (x / 0x1_0000);
    assert x / 0x1_0000 == b2 + 0x100 * b3;
  }

  /** A source written as N, the N table entries and the data array is split back into exactly
      that table and that data array. */
  lemma SplitRoundTrip(wlp: seq<nat>, data: seq<byte>)
    requires IsWlpLengthValid(|wlp|)
    requires forall i :: 0 <= i < |wlp| ==> IsU32(wlp[i])
    ensures ReadData([|wlp|] + EncodeU32s(wlp) + data) == Ok(Split(wlp, data))
  {
    var source := [|wlp|] + EncodeU32s(wlp) + data;
    assert source[1..1 + 4 * |wlp|] == EncodeU32s(wlp);
    assert source[1 + 4 * |wlp|..] == data;
    DecodeEncode(wlp);
  }

  /** CEFRDataReader. Its fields are set once and never change. */
  class Reader {
    const wlp: seq<nat>
    const data: seq<byte>

    /** Every constructed reader holds a layout the validator accepted. */
    predicate Valid()
    {
      DataValid(wlp, data)
    }

    /** Stores a layout that has already passed the validator. */
    constructor (wlp: seq<nat>, data: seq<byte>)
      requires DataValid(wlp, data)
      ensures this.wlp == wlp && this.data == data && Valid()
    {
      this.wlp := wlp;
      this.data := data;
    }

    /** get_wlp_value_at: wlp[i], or IndexError; never a default value. */
    function GetWlpValueAt(i: int): (r: Result<nat>)
      ensures r.Ok? <==> 0 <= i < |wlp|
      ensures r.Ok? ==> r.value == wlp[i]
      ensures r.Err? ==> r.error == IndexError
    {
      if 0 <= i < |wlp| then Ok(wlp[i]) else Err(IndexError)
    }

    /** get_data_array_value_at: data[i], or IndexError. */
    function GetDataArrayValueAt(i: int): (r: Result<byte>)
      ensures r.Ok? <==> 0 <= i < |data|
      ensures r.Ok? ==> r.value == data[i]
      ensures r.Err? ==> r.error == IndexError
    {
      if 0 <= i < |data| then Ok(data[i]) else Err(IndexError)
    }

    /** get_wlp_len: on a constructed reader it lies between 2 and 255. */
    function GetWlpLen(): (n: nat)
      requires Valid()
      ensures n == |wlp| && 2 <= n <= 255
    {
      |wlp|
    }

    /** get_data_array_len: at least the last table entry. */
    function GetDataArrayLen(): (n: nat)
      requires Valid()
      ensures n == |data| && wlp[|wlp| - 1] <= n
    {
      |data|
    }
  }

  /** CEFRDataReader(...) on an in-memory source: construction succeeds exactly when the source
      splits and the validator accepts the result; otherwise it raises. */
  method Load(source: seq<byte>) returns (r: Result<Reader>)
    ensures r.Ok? <==> ReadData(source).Ok? && DataValid(ReadData(source).value.wlp, ReadData(source).value.data)
    ensures r.Ok? ==> r.value.wlp == ReadData(source).value.wlp && r.value.data == ReadData(source).value.data
    ensures r.Err? && ReadData(source).Ok? ==> r.error == InvalidDatabase
    ensures r.Err? && ReadData(source).Err? ==> r.error == ReadData(source).error
  {
    var split := ReadData(source);
    if split.Err? {
      return Err(split.error);
    }
    var ok := IsDataValid(split.value.wlp, split.value.data);
    if !ok {
      return Err(InvalidDatabase);
    }
    var reader := new Reader(split.value.wlp, split.value.data);
    return Ok(reader);
  }
}
