// Byte strings, little-endian integers and LEB128 integers. Shifts and masks on
// unsigned integers are written as division, remainder and addition.

module Bytes {
  type byte = x: int | 0 <= x < 256

  type Digest = d: seq<byte> | |d| == 32 witness seq(32, _ => 0)

  function Power(base: nat, n: nat): (r: nat)
    ensures base > 0 ==> r > 0
  {
    if n == 0 then 1 else base * Power(base, n - 1)
  }

  // ---------- little-endian integers of a fixed width ----------

  function ToLittleEndian(value: nat, width: nat): (r: seq<byte>)
    ensures |r| == width
    decreases width
  {
    if width == 0 then [] else [value % 256] + ToLittleEndian(value / 256, width - 1)
  }

  function FromLittleEndian(bytes: seq<byte>): (value: nat)
    ensures value < Power(256, |bytes|)
  {
    if bytes == [] then 0 else bytes[0] + 256 * FromLittleEndian(bytes[1..])
  }

  lemma {:induction false} LittleEndianRoundTrip(value: nat, width: nat)
    requires value < Power(256, width)
    ensures FromLittleEndian(ToLittleEndian(value, width)) == value
    decreases width
  {
    if width > 0 {
      LittleEndianRoundTrip(value / 256, width - 1);
      assert ToLittleEndian(value, width)[1..] == ToLittleEndian(value / 256, width - 1);
    }
  }

  lemma {:induction false} LittleEndianIsUnique(bytes: seq<byte>)
    ensures ToLittleEndian(FromLittleEndian(bytes), |bytes|) == bytes
  {
    if bytes != [] {
      LittleEndianIsUnique(bytes[1..]);
      assert bytes == [bytes[0]] + bytes[1..];
    }
  }

  // The lowest byte comes first: bytes that follow count for more by a factor of
  // 256 for every byte before them.
  lemma {:induction false} LowBytesFirst(low: seq<byte>, high: seq<byte>)
    ensures FromLittleEndian(low + high) == FromLittleEndian(low) + Power(256, |low|) * FromLittleEndian(high)
    ensures |low| == 1 ==> FromLittleEndian(low) == low[0]
  {
    if low == [] {
      assert low + high == high;
    } else {
      LowBytesFirst(low[1..], high);
      assert (low + high)[1..] == low[1..] + high;
      Associate(256, Power(256, |low[1..]|), FromLittleEndian(high));
    }
  }

  lemma Associate(a: nat, b: nat, c: nat)
    ensures a * (b * c) == (a * b) * c
  {
  }

  const TWO_TO_THE_32: nat := 0x1_0000_0000
  const TWO_TO_THE_64: nat := 0x1_0000_0000_0000_0000

  lemma MachineWidths()
    ensures Power(256, 4) == TWO_TO_THE_32
    ensures Power(256, 8) == TWO_TO_THE_64
  {
    assert Power(256, 2) == 0x1_0000;
    assert Power(256, 4) == 256 * 256 * Power(256, 2);
    assert Power(256, 6) == 256 * 256 * Power(256, 4);
    assert Power(256, 8) == 256 * 256 * Power(256, 6);
  }
}

// Records made of consecutive fields at fixed offsets.
module Layout {
  import opened Bytes

  function Concat(fields: seq<seq<byte>>): seq<byte> {
    if fields == [] then [] else fields[0] + Concat(fields[1..])
  }

  lemma {:induction false} ConcatOneMore(fields: seq<seq<byte>>, field: seq<byte>)
    ensures Concat(fields + [field]) == Concat(fields) + field
  {
    if fields == [] {
      assert fields + [field] == [field];
      assert [field][1..] == [];
    } else {
      ConcatOneMore(fields[1..], field);
      assert (fields + [field])[1..] == fields[1..] + [field];
    }
  }

  // Field i occupies the positions from offsets[i] to offsets[i + 1].
  ghost predicate Fits(fields: seq<seq<byte>>, offsets: seq<nat>) {
    && |offsets| == |fields| + 1
    && forall i {:trigger fields[i]} :: 0 <= i < |fields| ==> offsets[i + 1] == offsets[i] + |fields[i]|
  }

  lemma {:induction false} FitsAscend(fields: seq<seq<byte>>, offsets: seq<nat>, i: nat)
    requires Fits(fields, offsets) && i <= |fields|
    ensures offsets[0] <= offsets[i] <= offsets[|fields|]
    ensures |Concat(fields)| == offsets[|fields|] - offsets[0]
    decreases |fields|
  {
    if fields != [] {
      FitsAscend(fields[1..], offsets[1..], if i == 0 then 0 else i - 1);
      assert offsets[1] == offsets[0] + |fields[0]|;
    }
  }

  // The bytes of d between two offsets, the first offset being its start.
  function Slot(d: seq<byte>, offsets: seq<nat>, i: nat): seq<byte>
    requires i + 1 < |offsets|
  {
    if offsets[0] <= offsets[i] <= offsets[i + 1] <= offsets[0] + |d|
    then d[offsets[i] - offsets[0]..offsets[i + 1] - offsets[0]] else []
  }

  lemma {:induction false} ConcatAround(fields: seq<seq<byte>>, i: nat)
    requires i < |fields|
    ensures Concat(fields) == Concat(fields[..i]) + fields[i] + Concat(fields[i + 1..])
    decreases |fields|
  {
    if i > 0 {
      var rest := fields[1..];
      ConcatAround(rest, i - 1);
      assert rest[..i - 1] == fields[..i][1..] && rest[i..] == fields[i + 1..];
      assert Concat(fields[..i]) == fields[0] + Concat(fields[..i][1..]);
    }
  }

  lemma FieldOf(fields: seq<seq<byte>>, offsets: seq<nat>, i: nat)
    requires Fits(fields, offsets) && i < |fields|
    ensures offsets[0] <= offsets[i] <= offsets[i + 1] <= offsets[0] + |Concat(fields)|
    ensures Slot(Concat(fields), offsets, i) == fields[i]
  {
    hide Concat;
    ConcatAround(fields, i);
    FitsAscend(fields, offsets, i);
    FitsAscend(fields[..i], offsets[..i + 1], i);
    var a, b := Concat(fields[..i]), Concat(fields[i + 1..]);
    assert (a + fields[i] + b)[|a|..|a| + |fields[i]|] == fields[i];
  }

  lemma {:induction false} PrefixDetermined(d: seq<byte>, fields: seq<seq<byte>>, offsets: seq<nat>, k: nat)
    requires Fits(fields, offsets) && offsets[0] == 0 && |d| == offsets[|fields|]
    requires forall i :: 0 <= i < |fields| ==> Slot(d, offsets, i) == fields[i]
    requires k <= |fields|
    ensures offsets[k] <= |d| && d[..offsets[k]] == Concat(fields[..k])
    decreases k
  {
    FitsAscend(fields, offsets, k);
    if k > 0 {
      PrefixDetermined(d, fields, offsets, k - 1);
      hide Concat;
      assert offsets[k - 1 + 1] == offsets[k - 1] + |fields[k - 1]|;
      assert Slot(d, offsets, k - 1) == d[offsets[k - 1]..offsets[k]];
      assert d[..offsets[k]] == d[..offsets[k - 1]] + d[offsets[k - 1]..offsets[k]];
      ConcatOneMore(fields[..k - 1], fields[k - 1]);
      assert fields[..k] == fields[..k - 1] + [fields[k - 1]];
    }
  }

  // A record with the right fields in the right places is their concatenation.
  lemma FieldsDetermine(d: seq<byte>, fields: seq<seq<byte>>, offsets: seq<nat>)
    requires Fits(fields, offsets) && offsets[0] == 0 && |d| == offsets[|fields|]
    requires forall i :: 0 <= i < |fields| ==> Slot(d, offsets, i) == fields[i]
    ensures d == Concat(fields)
  {
    PrefixDetermined(d, fields, offsets, |fields|);
    assert d[..|d|] == d && fields[..|fields|] == fields;
  }
}

module Leb128 {
  import opened Prelude
  import opened Bytes

  // The shortest LEB128 encoding.
  function Leb(value: nat): (r: seq<byte>)
    ensures r != []
  {
    if value < 128 then [value] else [128 + value % 128] + Leb(value / 128)
  }

  // Read a LEB128 integer of any length: its value and the position after it.
  function ReadLeb(data: seq<byte>, position: nat): (r: Option<(nat, nat)>)
    ensures r.Some? ==> position < r.value.1 <= |data|
    decreases |data| - position
  {
    if position >= |data| then None
    else if data[position] < 128 then Some((data[position], position + 1))
    else match ReadLeb(data, position + 1)
      case None => None
      case Some((rest, end)) => Some((data[position] - 128 + 128 * rest, end))
  }

  // Append a LEB128 integer, low seven bits first.
  method WriteLeb(out: seq<byte>, value: nat) returns (out': seq<byte>)
    ensures out' == out + Leb(value)
  {
    out' := out;
    var rest := value;
    while true
      invariant out' + Leb(rest) == out + Leb(value)
      decreases rest
    {
      var low := rest % 128;
      if rest / 128 == 0 {
        out' := out' + [low];
        return;
      }
      out' := out' + [128 + low];
      rest := rest / 128;
    }
  }

  // Read a LEB128 integer by accumulating shifted groups of seven bits; None
  // when the data ends inside it.
  method ReadInteger(data: seq<byte>, start: nat) returns (r: Option<(nat, nat)>)
    ensures r == ReadLeb(data, start)
  {
    var position: nat, value: nat, scale: nat := start, 0, 1;
    while position < |data|
      invariant start <= position
      invariant scale >= 1
      invariant match ReadLeb(data, position)
        case None => ReadLeb(data, start) == None
        case Some((rest, end)) => ReadLeb(data, start) == Some((value + scale * rest, end))
      decreases |data| - position
    {
      var b := data[position];
      ghost var tail := ReadLeb(data, position + 1);
      if b >= 128 && tail.Some? {
        Regroup(value, scale, b - 128, tail.value.0);
      }
      position := position + 1;
      value := value + scale * (b % 128);
      if b < 128 {
        return Some((value, position));
      }
      scale := scale * 128;
    }
    return None;
  }

  lemma Regroup(value: nat, scale: nat, low: nat, rest: nat)
    ensures value + scale * (low + 128 * rest) == (value + scale * low) + (scale * 128) * rest
  {
  }

  // Reading only looks at the bytes from the position on.
  lemma {:induction false} ReadLebShift(before: seq<byte>, data: seq<byte>, position: nat)
    ensures ReadLeb(before + data, |before| + position) ==
      match ReadLeb(data, position)
      case None => None
      case Some((value, end)) => Some((value, |before| + end))
    decreases |data| - position
  {
    if position < |data| && data[position] >= 128 {
      ReadLebShift(before, data, position + 1);
    }
  }

  // ... and no further than the end of the integer.
  lemma {:induction false} ReadLebExtends(data: seq<byte>, more: seq<byte>, position: nat)
    requires ReadLeb(data, position).Some?
    ensures ReadLeb(data + more, position) == ReadLeb(data, position)
    decreases |data| - position
  {
    if data[position] >= 128 {
      ReadLebExtends(data, more, position + 1);
    }
  }

  lemma {:induction false} ReadInvertsLeb(value: nat)
    ensures ReadLeb(Leb(value), 0) == Some((value, |Leb(value)|))
  {
    if value >= 128 {
      ReadInvertsLeb(value / 128);
      ReadLebShift([128 + value % 128], Leb(value / 128), 0);
    }
  }

  // The reader inverts the writer for every value, wherever it is written.
  lemma LebRoundTrip(before: seq<byte>, value: nat, after: seq<byte>)
    ensures ReadLeb(before + Leb(value) + after, |before|) == Some((value, |before| + |Leb(value)|))
  {
    ReadInvertsLeb(value);
    ReadLebExtends(Leb(value), after, 0);
    ReadLebShift(before, Leb(value) + after, 0);
    assert before + Leb(value) + after == before + (Leb(value) + after);
  }

  // An encoding is the shortest one exactly when it does not end in a zero
  // group, a lone zero aside.
  lemma {:induction false} ShortestForm(data: seq<byte>, position: nat)
    requires ReadLeb(data, position).Some?
    ensures var (value, end) := ReadLeb(data, position).value;
      && (data[position..end] == Leb(value) <==> end == position + 1 || data[end - 1] != 0)
      && |Leb(value)| <= end - position
      && (value > 0 ==> Leb(value)[|Leb(value)| - 1] != 0)
    decreases |data| - position
  {
    var (value, end) := ReadLeb(data, position).value;
    if data[position] < 128 {
      assert data[position..end] == [data[position]];
    } else {
      var rest := ReadLeb(data, position + 1).value.0;
      ShortestForm(data, position + 1);
      assert data[position..end] == [data[position]] + data[position + 1..end];
      if rest == 0 {
        assert Leb(value) == [value];
        ZeroEndsInZero(data, position + 1);
      } else {
        assert value / 128 == rest && value % 128 == data[position] - 128;
        assert Leb(value) == [data[position]] + Leb(rest);
        assert (data[position..end] == Leb(value)) <==> (data[position + 1..end] == Leb(rest)) by {
          if data[position..end] == Leb(value) {
            assert data[position + 1..end] == data[position..end][1..];
            assert Leb(rest) == Leb(value)[1..];
          }
        }
      }
    }
  }

  // The lowest seven bits come first, and the top bit of a byte says whether
  // more bytes follow.
  lemma {:induction false} LowGroupsFirst(low: nat, high: nat, i: nat)
    requires low < 128 && i < |Leb(low + 128 * high)|
    ensures Leb(low + 128 * high) == if high == 0 then [low] else [128 + low] + Leb(high)
    ensures Leb(low + 128 * high)[i] >= 128 <==> i < |Leb(low + 128 * high)| - 1
    decreases i
  {
    if i > 0 {
      LowGroupsFirst(high % 128, high / 128, i - 1);
    }
  }

  lemma {:induction false} ZeroEndsInZero(data: seq<byte>, position: nat)
    requires ReadLeb(data, position).Some? && ReadLeb(data, position).value.0 == 0
    ensures data[ReadLeb(data, position).value.1 - 1] == 0
    decreases |data| - position
  {
    if data[position] >= 128 {
      ZeroEndsInZero(data, position + 1);
    }
  }

  lemma {:induction false} LebLength(value: nat, n: nat)
    requires n >= 1
    ensures |Leb(value)| <= n <==> value < Power(128, n)
    decreases n
  {
    if n == 1 {
      assert Power(128, 1) == 128;
    } else if value >= 128 {
      LebLength(value / 128, n - 1);
      assert value / 128 < Power(128, n - 1) <==> value < 128 * Power(128, n - 1);
    }
  }
}

// Binary Wasm modules: an eight-byte header and a sequence of sections, each an
// id byte, a u32 size and a payload (sections 5.2.2, 5.5.2 and 5.5.3 of the
// WebAssembly Core Specification 2.0).
module WasmSections {
  import opened Bytes
  import opened Leb128

  const MODULE_HEADER: seq<byte> := [0, 97, 115, 109, 1, 0, 0, 0]

  function EncodeSection(id: byte, payload: seq<byte>): seq<byte> {
    [id] + Leb(|payload|) + payload
  }
}
