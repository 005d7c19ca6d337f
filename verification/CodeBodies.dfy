// The benchmark matrix compares emitted Wasm function by function: it walks the
// sections of a module to the code section and digests every function body.

module CodeBodies {
  import opened Prelude
  import opened Bytes
  import opened Leb128
  import opened WasmSections

  const CODE: byte := 10

  datatype Error = InvalidHeader | OutOfData | MalformedCode | MissingCode

  // A slice as Python takes it: clipped to the data.
  function Clip(data: seq<byte>, from: nat, to: nat): seq<byte>
    requires from <= to
  {
    if from >= |data| then [] else if to > |data| then data[from..] else data[from..to]
  }

  // ---------- the walk ----------

  // The digests of `count` bodies and the position after them.
  function ReadBodies<D>(digest: seq<byte> -> D, data: seq<byte>, position: nat, count: nat): Option<(seq<D>, nat)>
    decreases count
  {
    if count == 0 then Some(([], position))
    else match ReadLeb(data, position)
      case None => None
      case Some((size, start)) =>
        match ReadBodies(digest, data, start + size, count - 1)
        case None => None
        case Some((rest, end)) => Some(([digest(Clip(data, start, start + size))] + rest, end))
  }

  function ReadCode<D>(digest: seq<byte> -> D, data: seq<byte>, position: nat, end: nat): Result<seq<D>, Error> {
    match ReadLeb(data, position)
    case None => Err(OutOfData)
    case Some((count, first)) =>
      match ReadBodies(digest, data, first, count)
      case None => Err(OutOfData)
      case Some((bodies, after)) => if after == end then Ok(bodies) else Err(MalformedCode)
  }

  function Walk<D>(digest: seq<byte> -> D, data: seq<byte>, position: nat): Result<seq<D>, Error>
    decreases |data| - position
  {
    if position >= |data| then Err(MissingCode)
    else match ReadLeb(data, position + 1)
      case None => Err(OutOfData)
      case Some((length, start)) =>
        if data[position] == CODE then ReadCode(digest, data, start, start + length)
        else Walk(digest, data, start + length)
  }

  method Bodies<D>(digest: seq<byte> -> D, data: seq<byte>) returns (r: Result<seq<D>, Error>)
    ensures r == if MODULE_HEADER <= data then Walk(digest, data, 8) else Err(InvalidHeader)
  {
    hide ReadLeb;
    if !(MODULE_HEADER <= data) {
      return Err(InvalidHeader);
    }
    var position := 8;
    while position < |data|
      invariant Walk(digest, data, 8) == Walk(digest, data, position)
      decreases |data| - position
    {
      var section := data[position];
      var length := ReadInteger(data, position + 1);
      if length.None? {
        return Err(OutOfData);
      }
      var start, end := length.value.1, length.value.1 + length.value.0;
      if section == CODE {
        r := CodeSection(digest, data, start, end);
        return;
      }
      position := end;
    }
    return Err(MissingCode);
  }

  lemma NextBody<D>(digest: seq<byte> -> D, data: seq<byte>, position: nat, count: nat)
    requires count > 0
    ensures ReadLeb(data, position).None? ==> ReadBodies(digest, data, position, count).None?
    ensures ReadLeb(data, position).Some? ==>
      var (size, start) := ReadLeb(data, position).value;
      var rest := ReadBodies(digest, data, start + size, count - 1);
      ReadBodies(digest, data, position, count) ==
        if rest.None? then None
        else Some(([digest(Clip(data, start, start + size))] + rest.value.0, rest.value.1))
  {
    hide ReadLeb, Clip;
  }

  lemma NoMoreBodies<D>(digest: seq<byte> -> D, data: seq<byte>, position: nat)
    ensures ReadBodies(digest, data, position, 0) == Some(([], position))
  {
  }

  method CodeSection<D>(digest: seq<byte> -> D, data: seq<byte>, position0: nat, end: nat)
    returns (r: Result<seq<D>, Error>)
    ensures r == ReadCode(digest, data, position0, end)
  {
    hide ReadLeb, ReadBodies, Clip;
    var count := ReadInteger(data, position0);
    if count.None? {
      return Err(OutOfData);
    }
    var (n, position) := count.value;
    var bodies: seq<D> := [];
    ghost var all := ReadBodies(digest, data, position, n);
    assert all.Some? ==> bodies + all.value.0 == all.value.0;
    for k := 0 to n
      invariant var rest := ReadBodies(digest, data, position, n - k);
        all == if rest.None? then None else Some((bodies + rest.value.0, rest.value.1))
    {
      var size := ReadInteger(data, position);
      if size.None? {
        NextBody(digest, data, position, n - k);
        return Err(OutOfData);
      }
      var (length, start) := size.value;
      ghost var rest := ReadBodies(digest, data, start + length, n - k - 1);
      NextBody(digest, data, position, n - k);
      var body := digest(Clip(data, start, start + length));
      assert rest.Some? ==> bodies + ([body] + rest.value.0) == (bodies + [body]) + rest.value.0;
      bodies := bodies + [body];
      position := start + length;
    }
    NoMoreBodies(digest, data, position);
    assert bodies + [] == bodies;
    if position != end {
      return Err(MalformedCode);
    }
    return Ok(bodies);
  }

  // ---------- modules and their bodies ----------

  function EncodeBodies(bodies: seq<seq<byte>>): seq<byte> {
    if bodies == [] then [] else Leb(|bodies[0]|) + bodies[0] + EncodeBodies(bodies[1..])
  }

  function EncodeSections(sections: seq<(byte, seq<byte>)>): seq<byte> {
    if sections == [] then []
    else EncodeSection(sections[0].0, sections[0].1) + EncodeSections(sections[1..])
  }

  function Digests<D>(digest: seq<byte> -> D, bodies: seq<seq<byte>>): seq<D> {
    seq(|bodies|, i requires 0 <= i < |bodies| => digest(bodies[i]))
  }

  lemma {:induction false} BodiesReadBack<D>(
      digest: seq<byte> -> D, before: seq<byte>, bodies: seq<seq<byte>>, after: seq<byte>)
    ensures ReadBodies(digest, before + EncodeBodies(bodies) + after, |before|, |bodies|) ==
      Some((Digests(digest, bodies), |before| + |EncodeBodies(bodies)|))
    decreases |bodies|
  {
    hide ReadLeb, Leb, ReadBodies, Clip;
    if bodies == [] {
      NoMoreBodies(digest, before + EncodeBodies(bodies) + after, |before|);
      assert Digests(digest, bodies) == [];
    } else {
      var first, rest := bodies[0], bodies[1..];
      var tail, data := EncodeBodies(rest), before + EncodeBodies(bodies) + after;
      SizeIsRead(before, first, tail, after);
      BodyIsClipped(before, first, tail, after);
      Reassociate(before, Leb(|first|), first, tail, after);
      BodiesReadBack(digest, before + Leb(|first|) + first, rest, after);
      NextBody(digest, data, |before|, |bodies|);
      assert Digests(digest, bodies) == [digest(first)] + Digests(digest, rest);
    }
  }

  // A body encoded between other data: its size and its extent are read back.
  lemma SizeIsRead(before: seq<byte>, body: seq<byte>, tail: seq<byte>, after: seq<byte>)
    ensures ReadLeb(before + (Leb(|body|) + body + tail) + after, |before|) == Some((|body|, |before| + |Leb(|body|)|))
  {
    hide ReadLeb, Leb;
    LebRoundTrip(before, |body|, body + tail + after);
    assert before + (Leb(|body|) + body + tail) + after == before + Leb(|body|) + (body + tail + after);
  }

  lemma BodyIsClipped(before: seq<byte>, body: seq<byte>, tail: seq<byte>, after: seq<byte>)
    ensures var start := |before| + |Leb(|body|)|;
      Clip(before + (Leb(|body|) + body + tail) + after, start, start + |body|) == body
  {
    hide Leb;
    var data, start := before + (Leb(|body|) + body + tail) + after, |before| + |Leb(|body|)|;
    assert data[start..start + |body|] == body;
  }

  lemma Reassociate(a: seq<byte>, b: seq<byte>, c: seq<byte>, d: seq<byte>, e: seq<byte>)
    ensures a + (b + c + d) + e == a + b + c + d + e
  {
  }

  lemma SectionIsSkipped<D>(digest: seq<byte> -> D, before: seq<byte>, id: byte, payload: seq<byte>, after: seq<byte>)
    requires id != CODE
    ensures var data := before + EncodeSection(id, payload) + after;
      Walk(digest, data, |before|) == Walk(digest, data, |before| + |EncodeSection(id, payload)|)
  {
    hide ReadLeb, Leb, Walk;
    var data := before + EncodeSection(id, payload) + after;
    assert data == (before + [id]) + Leb(|payload|) + (payload + after);
    LebRoundTrip(before + [id], |payload|, payload + after);
    assert data[|before|] == id;
    WalkAtSection(digest, data, |before|);
  }

  lemma {:induction false} SectionsAreSkipped<D>(
      digest: seq<byte> -> D, before: seq<byte>, sections: seq<(byte, seq<byte>)>, after: seq<byte>)
    requires forall i :: 0 <= i < |sections| ==> sections[i].0 != CODE
    ensures var data := before + EncodeSections(sections) + after;
      Walk(digest, data, |before|) == Walk(digest, data, |before| + |EncodeSections(sections)|)
    decreases |sections|
  {
    hide Walk, EncodeSection;
    if sections != [] {
      var data := before + EncodeSections(sections) + after;
      var id, payload, rest := sections[0].0, sections[0].1, sections[1..];
      var before' := before + EncodeSection(id, payload);
      SectionIsSkipped(digest, before, id, payload, EncodeSections(rest) + after);
      assert data == before' + (EncodeSections(rest) + after);
      SectionsAreSkipped(digest, before', rest, after);
      assert data == before' + EncodeSections(rest) + after;
    }
  }

  // For every module with a code section, the walk returns the digests of its
  // bodies in order, whatever sections come before and whatever follows.
  lemma WalkFindsBodies<D>(
      digest: seq<byte> -> D, sections: seq<(byte, seq<byte>)>, bodies: seq<seq<byte>>, after: seq<byte>)
    requires forall i :: 0 <= i < |sections| ==> sections[i].0 != CODE
    ensures var code := EncodeSection(CODE, Leb(|bodies|) + EncodeBodies(bodies));
      Walk(digest, MODULE_HEADER + EncodeSections(sections) + (code + after), 8) == Ok(Digests(digest, bodies))
  {
    hide ReadLeb, Leb, ReadBodies, EncodeBodies, EncodeSections, Walk;
    var payload := Leb(|bodies|) + EncodeBodies(bodies);
    var code := EncodeSection(CODE, payload);
    var before := MODULE_HEADER + EncodeSections(sections);
    var data := before + (code + after);
    SectionsAreSkipped(digest, MODULE_HEADER, sections, code + after);
    var start := |before| + 1 + |Leb(|payload|)|;
    assert data == (before + [CODE]) + Leb(|payload|) + (payload + after);
    LebRoundTrip(before + [CODE], |payload|, payload + after);
    var head := before + [CODE] + Leb(|payload|);
    assert data == head + Leb(|bodies|) + (EncodeBodies(bodies) + after);
    LebRoundTrip(head, |bodies|, EncodeBodies(bodies) + after);
    assert data == (head + Leb(|bodies|)) + EncodeBodies(bodies) + after;
    BodiesReadBack(digest, head + Leb(|bodies|), bodies, after);
    assert data[|before|] == CODE;
    WalkAtSection(digest, data, |before|);
  }

  lemma WalkAtSection<D>(digest: seq<byte> -> D, data: seq<byte>, position: nat)
    requires position < |data| && ReadLeb(data, position + 1).Some?
    ensures var (length, start) := ReadLeb(data, position + 1).value;
      Walk(digest, data, position) ==
        if data[position] == CODE then ReadCode(digest, data, start, start + length)
        else Walk(digest, data, start + length)
  {
    hide ReadLeb, ReadCode;
  }

  // The walk does not notice data that ends inside the last body: here the
  // code section announces a body of three bytes that is not there.
  lemma TruncatedBodyIsDigested<D>(digest: seq<byte> -> D)
    ensures Walk(digest, MODULE_HEADER + [CODE, 5, 1, 3], 8) == Ok([digest([])])
  {
    var data := MODULE_HEADER + [CODE, 5, 1, 3];
    assert ReadLeb(data, 9) == Some((5, 10));
    assert ReadLeb(data, 10) == Some((1, 11));
    assert ReadLeb(data, 11) == Some((3, 12));
    assert Clip(data, 12, 15) == [];
    assert ReadBodies(digest, data, 15, 0) == Some(([], 15));
    assert [digest([])] + [] == [digest([])];
    assert ReadBodies(digest, data, 11, 1) == Some(([digest([])], 15));
    WalkAtSection(digest, data, 8);
  }

  // The extents of the bodies in the data.
  function Extents(data: seq<byte>, position: nat, count: nat): Option<(seq<(nat, nat)>, nat)>
    decreases count
  {
    if count == 0 then Some(([], position))
    else match ReadLeb(data, position)
      case None => None
      case Some((size, start)) =>
        match Extents(data, start + size, count - 1)
        case None => None
        case Some((rest, end)) => Some(([(start, start + size)] + rest, end))
  }

  // A run of bodies lies within the data, uncut, exactly when its end does.
  lemma {:induction false} BodiesAreWholeIff<D>(digest: seq<byte> -> D, data: seq<byte>, position: nat, count: nat)
    requires ReadBodies(digest, data, position, count).Some? && (count == 0 ==> position <= |data|)
    ensures Extents(data, position, count).Some?
    ensures var (bodies, end) := ReadBodies(digest, data, position, count).value;
      var (extents, end') := Extents(data, position, count).value;
      && end == end' && |extents| == |bodies| == count
      && (end <= |data| <==> forall i :: 0 <= i < count ==> extents[i].0 <= extents[i].1 <= |data|)
      && (end <= |data| ==> forall i :: 0 <= i < count ==> bodies[i] == digest(data[extents[i].0..extents[i].1]))
    decreases count
  {
    hide ReadLeb;
    if count > 0 {
      var (size, start) := ReadLeb(data, position).value;
      if count == 1 {
        assert Extents(data, start + size, 0) == Some(([], start + size));
        assert [(start, start + size)] + [] == [(start, start + size)];
        assert Extents(data, position, 1) == Some(([(start, start + size)], start + size));
        assert Extents(data, position, 1).value.0[0] == (start, start + size);
      } else {
        assert start + size < |data|;
        BodiesAreWholeIff(digest, data, start + size, count - 1);
        var rest, end := Extents(data, start + size, count - 1).value.0, Extents(data, start + size, count - 1).value.1;
        var extents := [(start, start + size)] + rest;
        assert Extents(data, position, count) == Some((extents, end));
        assert forall i :: 0 <= i < count - 1 ==> rest[i] == extents[i + 1];
        assert forall i :: 0 < i < count ==> extents[i] == rest[i - 1];
      }
    }
  }

  // The bodies digested from a code section are the bodies it announces, each
  // of them within the data.
  ghost predicate Whole<D>(digest: seq<byte> -> D, data: seq<byte>, start: nat, bodies: seq<D>) {
    && ReadLeb(data, start).Some?
    && var (count, first) := ReadLeb(data, start).value;
    && Extents(data, first, count).Some?
    && var extents := Extents(data, first, count).value.0;
    && |bodies| == |extents| == count
    && forall i :: 0 <= i < count ==>
         && extents[i].0 <= extents[i].1 <= |data|
         && bodies[i] == digest(data[extents[i].0..extents[i].1])
  }

  // The bodies of an accepted code section are whole exactly when the section,
  // as its header gives its end, lies within the data.
  lemma CodeIsWholeIff<D>(digest: seq<byte> -> D, data: seq<byte>, start: nat, end: nat)
    requires ReadCode(digest, data, start, end).Ok?
    ensures Whole(digest, data, start, ReadCode(digest, data, start, end).value) <==> end <= |data|
  {
    hide ReadLeb, ReadBodies, Extents;
    var (count, first) := ReadLeb(data, start).value;
    BodiesAreWholeIff(digest, data, first, count);
  }

  // The payload extent of the first code section, by the section headers alone.
  function FindCode(data: seq<byte>, position: nat): Option<(nat, nat)>
    decreases |data| - position
  {
    if position >= |data| then None
    else match ReadLeb(data, position + 1)
      case None => None
      case Some((length, start)) =>
        if data[position] == CODE then Some((start, start + length)) else FindCode(data, start + length)
  }

  lemma {:induction false} WalkReadsCode<D>(digest: seq<byte> -> D, data: seq<byte>, position: nat)
    requires Walk(digest, data, position).Ok?
    ensures FindCode(data, position).Some?
    ensures var (start, end) := FindCode(data, position).value;
      Walk(digest, data, position) == ReadCode(digest, data, start, end)
    decreases |data| - position
  {
    hide ReadLeb, ReadCode;
    if data[position] != CODE {
      var (length, start) := ReadLeb(data, position + 1).value;
      WalkReadsCode(digest, data, start + length);
    }
  }

  // An accepted file yields whole bodies exactly when the end announced by the
  // header of its code section lies within the file.
  lemma WalkIsWholeIff<D>(digest: seq<byte> -> D, data: seq<byte>)
    requires Walk(digest, data, 8).Ok?
    ensures FindCode(data, 8).Some?
    ensures var (start, end) := FindCode(data, 8).value;
      Whole(digest, data, start, Walk(digest, data, 8).value) <==> end <= |data|
  {
    hide ReadLeb, ReadCode, Walk, FindCode, Whole;
    WalkReadsCode(digest, data, 8);
    var (start, end) := FindCode(data, 8).value;
    CodeIsWholeIff(digest, data, start, end);
  }
}
