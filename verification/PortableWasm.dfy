// Portable precompiled Wasm: an admitted module followed by one custom section
// `witchy.source.v1` that holds the digest of the module and its source inputs.

module PortableWasm {
  import opened Prelude
  import opened Bytes
  import opened Leb128
  import opened WasmSections
  import opened SourceInputs

  // "witchy.source.v1"
  const SECTION_NAME: seq<byte> := [119, 105, 116, 99, 104, 121, 46, 115, 111, 117, 114, 99, 101, 46, 118, 49]
  const MAX_SECTION_BYTES: nat := 0x400_0000
  const DIGEST_LEN: nat := 32
  const COMPONENT_HEADER: seq<byte> := [0, 97, 115, 109, 13, 0, 1, 0]

  datatype Error =
    | NotWasm | Component | Duplicate | NotLast | TooLarge | NotCanonical | Truncated
    | DigestMismatch | UndecodableInputs | RejectedInputs(Complaint) | AlreadySealed

  // What the Wasm parser accepts inside a section that is not custom, and as
  // the name of a custom one.
  datatype Parser = Parser(
    body: (byte, seq<byte>) -> bool,
    name: seq<byte> -> bool)

  datatype Artifact<R> = Artifact(wasm: seq<byte>, inputs: Inputs<R>)

  // ---------- reading sections ----------

  // A u32 takes at most five bytes and its value must fit.
  function ReadVarU32(data: seq<byte>, position: nat): (r: Option<(nat, nat)>)
    ensures r.Some? ==> position < r.value.1 <= |data|
  {
    match ReadLeb(data, position)
    case None => None
    case Some((value, end)) =>
      if end - position <= 5 && value < TWO_TO_THE_32 then Some((value, end)) else None
  }

  // The name of a custom section and the position of its data.
  function CustomName(parser: Parser, payload: seq<byte>): (r: Option<(seq<byte>, nat)>)
    ensures r.Some? ==> r.value.1 <= |payload|
  {
    match ReadVarU32(payload, 0)
    case None => None
    case Some((length, start)) =>
      if start + length <= |payload| && parser.name(payload[start..start + length])
      then Some((payload[start..start + length], start + length)) else None
  }

  // The extent of the payload of the section at a position.
  function ReadSection(parser: Parser, data: seq<byte>, position: nat): (r: Option<(nat, nat)>)
    requires position < |data|
    ensures r.Some? ==> position + 1 < r.value.0 <= r.value.1 <= |data|
  {
    match ReadVarU32(data, position + 1)
    case None => None
    case Some((size, start)) =>
      if start + size > |data| then None
      else
        var payload := data[start..start + size];
        if data[position] == 0 then
          if CustomName(parser, payload).Some? then Some((start, start + size)) else None
        else if parser.body(data[position], payload) then Some((start, start + size)) else None
  }

  predicate IsSource(parser: Parser, data: seq<byte>, position: nat, payload: seq<byte>)
    requires position < |data|
  {
    && data[position] == 0
    && CustomName(parser, payload).Some?
    && CustomName(parser, payload).value.0 == SECTION_NAME
  }

  // Walk the sections from a position, remembering the extent of the source
  // section.
  function Scan(parser: Parser, data: seq<byte>, position: nat, found: Option<(nat, nat)>)
    : (r: Result<Option<(nat, nat)>, Error>)
    requires position <= |data|
    requires found.Some? ==> found.value.0 <= found.value.1 <= |data|
    ensures r.Ok? && r.value.Some? ==> r.value.value.0 <= r.value.value.1 <= |data|
    decreases |data| - position
  {
    if position == |data| then Ok(found)
    else match ReadSection(parser, data, position)
      case None => Err(NotWasm)
      case Some((start, end)) =>
        if IsSource(parser, data, position, data[start..end]) then
          if found.Some? then Err(Duplicate) else Scan(parser, data, end, Some((start, end)))
        else Scan(parser, data, end, found)
  }

  // ---------- the reader ----------

  function Probe<R>(parser: Parser, codec: Codec<R>, bytes: seq<byte>): Result<Option<Artifact<R>>, Error> {
    if |bytes| < 8 then Err(NotWasm)
    else if bytes[..8] == COMPONENT_HEADER then Err(Component)
    else if bytes[..8] != MODULE_HEADER then Err(NotWasm)
    else match Scan(parser, bytes, 8, None)
      case Err(error) => Err(error)
      case Ok(None) => Ok(None)
      case Ok(Some((start, end))) => ReadSource(parser, codec, bytes, start, end)
  }

  // Check the source section with the given payload extent.
  function ReadSource<R>(parser: Parser, codec: Codec<R>, bytes: seq<byte>, start: nat, end: nat)
    : Result<Option<Artifact<R>>, Error>
    requires start <= end <= |bytes|
  {
    if end != |bytes| then Err(NotLast)
    else if end - start > MAX_SECTION_BYTES then Err(TooLarge)
    else
      var header := [0] + Leb(end - start);
      if |header| > start || bytes[start - |header|..start] != header then Err(NotCanonical)
      else
        var prefix := bytes[..start - |header|];
        var payload := bytes[start..end];
        match CustomName(parser, payload)
        case None => Err(NotWasm)
        case Some((_, dataAt)) =>
          var data := payload[dataAt..];
          if |data| < DIGEST_LEN then Err(Truncated)
          else if data[..DIGEST_LEN] != codec.digest(prefix) then Err(DigestMismatch)
          else match codec.decode(data[DIGEST_LEN..])
            case None => Err(UndecodableInputs)
            case Some(inputs) => match ValidatePortable(codec, inputs)
              case Some(complaint) => Err(RejectedInputs(complaint))
              case None => Ok(Some(Artifact(prefix, inputs)))
  }

  // The scan as a loop over the sections.
  method ScanSections(parser: Parser, data: seq<byte>) returns (r: Result<Option<(nat, nat)>, Error>)
    requires |data| >= 8
    ensures r == Scan(parser, data, 8, None)
  {
    var position := 8;
    var found: Option<(nat, nat)> := None;
    while position < |data|
      invariant position <= |data|
      invariant found.Some? ==> found.value.0 <= found.value.1 <= |data|
      invariant Scan(parser, data, 8, None) == Scan(parser, data, position, found)
      decreases |data| - position
    {
      var section := ReadSection(parser, data, position);
      if section.None? {
        return Err(NotWasm);
      }
      var (start, end) := section.value;
      if IsSource(parser, data, position, data[start..end]) {
        if found.Some? {
          return Err(Duplicate);
        }
        found := Some((start, end));
      }
      position := end;
    }
    return Ok(found);
  }

  // ---------- the writer ----------

  function Payload<R>(codec: Codec<R>, wasm: seq<byte>, inputs: Inputs<R>): seq<byte> {
    Leb(|SECTION_NAME|) + SECTION_NAME + codec.digest(wasm) + codec.encode(inputs)
  }

  // A custom section.
  function SectionOf(payload: seq<byte>): seq<byte> {
    EncodeSection(0, payload)
  }

  function Sealed<R>(parser: Parser, codec: Codec<R>, wasm: seq<byte>, inputs: Inputs<R>): Result<seq<byte>, Error> {
    match Probe(parser, codec, wasm)
    case Err(error) => Err(error)
    case Ok(Some(_)) => Err(AlreadySealed)
    case Ok(None) =>
      var bound := BoundTo(codec, inputs, PORTABLE_WASM_DOMAIN);
      match ValidatePortable(codec, bound)
      case Some(complaint) => Err(RejectedInputs(complaint))
      case None =>
        var payload := Payload(codec, wasm, bound);
        if |payload| > MAX_SECTION_BYTES then Err(TooLarge)
        else Ok(wasm + SectionOf(payload))
  }

  method Seal<R>(parser: Parser, codec: Codec<R>, wasm: seq<byte>, inputs: Inputs<R>)
    returns (r: Result<seq<byte>, Error>)
    ensures r == Sealed(parser, codec, wasm, inputs)
  {
    hide Probe, Leb;
    var probed := Probe(parser, codec, wasm);
    if probed.Err? {
      return Err(probed.error);
    }
    if probed.value.Some? {
      return Err(AlreadySealed);
    }
    var bound := inputs.(launcherDigest := codec.digest(PORTABLE_WASM_DOMAIN));
    var complaint := ValidatePortable(codec, bound);
    if complaint.Some? {
      return Err(RejectedInputs(complaint.value));
    }
    var payload := WriteLeb([], |SECTION_NAME|);
    payload := payload + SECTION_NAME;
    payload := payload + codec.digest(wasm);
    payload := payload + codec.encode(bound);
    assert payload == Payload(codec, wasm, bound);
    if |payload| > MAX_SECTION_BYTES {
      return Err(TooLarge);
    }
    var sealed := wasm;
    sealed := sealed + [0];
    sealed := WriteLeb(sealed, |payload|);
    sealed := sealed + payload;
    assert sealed == wasm + SectionOf(payload);
    return Ok(sealed);
  }

  // Every 32-bit value is read back from its shortest encoding, and no reading
  // exceeds five bytes or 32 bits.
  lemma VarU32RoundTrip(before: seq<byte>, value: nat, after: seq<byte>)
    ensures ReadVarU32(before + Leb(value) + after, |before|) ==
      if value < TWO_TO_THE_32 then Some((value, |before| + |Leb(value)|)) else None
    ensures forall data, position: nat :: ReadVarU32(data, position).Some? ==>
      var (v, end) := ReadVarU32(data, position).value; v < 0x1_0000_0000 && end <= position + 5
  {
    hide Leb, ReadLeb;
    LebRoundTrip(before, value, after);
    LebLength(value, 5);
    PowerOf128();
  }

  // ---------- a section header is accepted only in its shortest form ----------

  // For a section whose size is read from its header, the bytes just before its
  // payload are the canonical header exactly when that header is canonical, and
  // then the canonical header starts at the section's id byte.
  lemma HeaderIsCanonicalIff(data: seq<byte>, position: nat)
    requires position < |data| && data[position] == 0
    requires ReadVarU32(data, position + 1).Some? && ReadVarU32(data, position + 1).value.0 > 0
    ensures var (size, start) := ReadVarU32(data, position + 1).value;
      var header := [0] + Leb(size);
      && |header| <= start
      && (data[start - |header|..start] == header <==> data[position + 1..start] == Leb(size))
      && (data[start - |header|..start] == header ==> start - |header| == position)
  {
    var (size, start) := ReadVarU32(data, position + 1).value;
    var header := [0] + Leb(size);
    ShortestForm(data, position + 1);
    hide Leb, ReadLeb;
    if data[position + 1..start] == Leb(size) {
      assert |Leb(size)| == start - (position + 1);
      assert data[position..start] == [data[position]] + data[position + 1..start];
    } else {
      // A longer encoding ends in a zero group, the shortest one does not.
      assert data[start - 1] == 0;
      var window := data[start - |header|..start];
      assert window[|header| - 1] == data[start - 1];
      assert header[|header| - 1] == Leb(size)[|Leb(size)| - 1];
    }
  }

  // ---------- scanning a module and what follows it ----------

  lemma SliceOfPrefix(data: seq<byte>, more: seq<byte>, lo: nat, hi: nat)
    requires lo <= hi <= |data|
    ensures (data + more)[lo..hi] == data[lo..hi]
  {
  }

  lemma SliceOfCut(data: seq<byte>, cut: nat, lo: nat, hi: nat)
    requires lo <= hi <= cut <= |data|
    ensures data[..cut][lo..hi] == data[lo..hi]
  {
  }

  lemma ReadSectionExtends(parser: Parser, data: seq<byte>, more: seq<byte>, position: nat)
    requires position < |data| && ReadSection(parser, data, position).Some?
    ensures ReadSection(parser, data + more, position) == ReadSection(parser, data, position)
  {
    hide ReadLeb, CustomName;
    ReadLebExtends(data, more, position + 1);
    var (start, end) := ReadSection(parser, data, position).value;
    SliceOfPrefix(data, more, start, end);
  }

  // After the sections of a module the scan goes on with what follows.
  lemma {:induction false} ScanContinues(
      parser: Parser, data: seq<byte>, more: seq<byte>, position: nat, found: Option<(nat, nat)>)
    requires position <= |data|
    requires found.Some? ==> found.value.0 <= found.value.1 <= |data|
    requires Scan(parser, data, position, found).Ok?
    ensures Scan(parser, data + more, position, found) ==
      Scan(parser, data + more, |data|, Scan(parser, data, position, found).value)
    decreases |data| - position
  {
    if position < |data| {
      hide ReadSection, CustomName;
      ReadSectionExtends(parser, data, more, position);
      var (start, end) := ReadSection(parser, data, position).value;
      SliceOfPrefix(data, more, start, end);
      var found' := if IsSource(parser, data, position, data[start..end]) then Some((start, end)) else found;
      ScanContinues(parser, data, more, end, found');
    }
  }

  // If the scan finds a section, that section starts at a boundary, and what
  // precedes it is a sequence of sections without a source section.
  lemma {:induction false} ScanFinds(parser: Parser, data: seq<byte>, position: nat) returns (at: nat)
    requires position <= |data|
    requires Scan(parser, data, position, None).Ok? && Scan(parser, data, position, None).value.Some?
    ensures position <= at < |data|
    ensures ReadSection(parser, data, at) == Scan(parser, data, position, None).value
    ensures var (start, end) := ReadSection(parser, data, at).value; IsSource(parser, data, at, data[start..end])
    ensures Scan(parser, data[..at], position, None) == Ok(None)
    decreases |data| - position
  {
    hide ReadSection, CustomName;
    var (start, end) := ReadSection(parser, data, position).value;
    if IsSource(parser, data, position, data[start..end]) {
      at := position;
      FoundStays(parser, data, end, Some((start, end)));
    } else {
      at := ScanFinds(parser, data, end);
      ReadSectionShrinks(parser, data, at, position);
      SliceOfCut(data, at, start, end);
      assert data[..at][position] == data[position];
    }
  }

  lemma {:induction false} FoundStays(parser: Parser, data: seq<byte>, position: nat, found: Option<(nat, nat)>)
    requires position <= |data|
    requires found.Some? && found.value.0 <= found.value.1 <= |data|
    requires Scan(parser, data, position, found).Ok?
    ensures Scan(parser, data, position, found) == Ok(found)
    decreases |data| - position
  {
    hide ReadSection, CustomName;
    if position < |data| {
      var (start, end) := ReadSection(parser, data, position).value;
      FoundStays(parser, data, end, found);
    }
  }

  // A section that ends before a cut is read the same after the cut.
  lemma ReadSectionShrinks(parser: Parser, data: seq<byte>, cut: nat, position: nat)
    requires position < cut <= |data|
    requires ReadSection(parser, data, position).Some? && ReadSection(parser, data, position).value.1 <= cut
    ensures ReadSection(parser, data[..cut], position) == ReadSection(parser, data, position)
  {
    hide CustomName, ReadLeb;
    var (start, end) := ReadSection(parser, data, position).value;
    ReadLebShrinks(data, cut, position + 1);
    SliceOfCut(data, cut, start, end);
  }

  lemma {:induction false} ReadLebShrinks(data: seq<byte>, cut: nat, position: nat)
    requires cut <= |data|
    requires ReadLeb(data, position).Some? && ReadLeb(data, position).value.1 <= cut
    ensures ReadLeb(data[..cut], position) == ReadLeb(data, position)
    decreases |data| - position
  {
    if data[position] >= 128 {
      ReadLebShrinks(data, cut, position + 1);
    }
  }

  // ---------- the reader accepts exactly modules followed by their source ----------

  // A payload that names and describes the source of a module.
  ghost predicate SourcePayload<R>(
      parser: Parser, codec: Codec<R>, wasm: seq<byte>, payload: seq<byte>, inputs: Inputs<R>)
  {
    && |payload| <= MAX_SECTION_BYTES
    && CustomName(parser, payload).Some?
    && CustomName(parser, payload).value.0 == SECTION_NAME
    && var data := payload[CustomName(parser, payload).value.1..];
    && |data| >= DIGEST_LEN
    && data[..DIGEST_LEN] == codec.digest(wasm)
    && codec.decode(data[DIGEST_LEN..]) == Some(inputs)
    && ValidatePortable(codec, inputs).None?
  }

  // A section of limited size is read back from where it was appended.
  lemma AppendedSection(parser: Parser, wasm: seq<byte>, payload: seq<byte>)
    requires |payload| <= MAX_SECTION_BYTES && CustomName(parser, payload).Some?
    ensures var bytes, start := wasm + SectionOf(payload), |wasm| + 1 + |Leb(|payload|)|;
      && |bytes| == start + |payload|
      && bytes[|wasm|] == 0
      && bytes[start..] == payload && bytes[..|wasm|] == wasm
      && bytes[|wasm|..start] == [0] + Leb(|payload|)
      && ReadSection(parser, bytes, |wasm|) == Some((start, |bytes|))
  {
    hide Leb, ReadLeb, CustomName;
    var bytes, leb := wasm + SectionOf(payload), Leb(|payload|);
    var start := |wasm| + 1 + |leb|;
    LebRoundTrip(wasm + [0], |payload|, payload);
    assert bytes == wasm + [0] + leb + payload;
    LebLength(|payload|, 5);
    assert Power(128, 5) > MAX_SECTION_BYTES by { PowerOf128(); }
    assert bytes[start..start + |payload|] == payload;
    assert bytes[|wasm|] == 0;
    assert bytes[|wasm|..start] == [0] + leb;
  }

  lemma PowerOf128()
    ensures Power(128, 5) == 0x8_0000_0000
  {
    assert Power(128, 2) == 0x4000;
    assert Power(128, 4) == 128 * 128 * Power(128, 2);
  }

  // The scan of a source section that ends the data.
  lemma ScanLast(parser: Parser, data: seq<byte>, at: nat, start: nat)
    requires at < |data| && ReadSection(parser, data, at) == Some((start, |data|))
    requires IsSource(parser, data, at, data[start..|data|])
    ensures Scan(parser, data, at, None) == Ok(Some((start, |data|)))
  {
    hide ReadSection, IsSource;
  }

  // The scan finds a source section appended to a module without one.
  lemma SourceIsFound(parser: Parser, wasm: seq<byte>, payload: seq<byte>)
    requires |wasm| >= 8 && Scan(parser, wasm, 8, None) == Ok(None)
    requires |payload| <= MAX_SECTION_BYTES && CustomName(parser, payload).Some?
    requires CustomName(parser, payload).value.0 == SECTION_NAME
    ensures var bytes := wasm + SectionOf(payload);
      Scan(parser, bytes, 8, None) == Ok(Some((|wasm| + 1 + |Leb(|payload|)|, |bytes|)))
  {
    hide Leb, ReadSection, CustomName, SectionOf, Scan;
    var bytes, start := wasm + SectionOf(payload), |wasm| + 1 + |Leb(|payload|)|;
    ScanContinues(parser, wasm, SectionOf(payload), 8, None);
    AppendedSection(parser, wasm, payload);
    assert bytes[start..|bytes|] == payload;
    ScanLast(parser, bytes, |wasm|, start);
  }

  // The checks after the scan pass for a payload that describes the module.
  lemma SourceIsRead<R>(parser: Parser, codec: Codec<R>, wasm: seq<byte>, payload: seq<byte>, inputs: Inputs<R>)
    requires SourcePayload(parser, codec, wasm, payload, inputs)
    ensures var bytes, start := wasm + SectionOf(payload), |wasm| + 1 + |Leb(|payload|)|;
      && start <= |bytes|
      && ReadSource(parser, codec, bytes, start, |bytes|) == Ok(Some(Artifact(wasm, inputs)))
  {
    hide Leb, ReadSection, CustomName, SectionOf;
    AppendedSection(parser, wasm, payload);
    var bytes, start := wasm + SectionOf(payload), |wasm| + 1 + |Leb(|payload|)|;
    var header := [0] + Leb(|payload|);
    assert start - |header| == |wasm|;
    assert bytes[start..|bytes|] == payload;
  }

  lemma ModuleWithSourceIsAccepted<R>(
      parser: Parser, codec: Codec<R>, wasm: seq<byte>, payload: seq<byte>, inputs: Inputs<R>)
    requires Probe(parser, codec, wasm) == Ok(None)
    requires SourcePayload(parser, codec, wasm, payload, inputs)
    ensures Probe(parser, codec, wasm + SectionOf(payload)) == Ok(Some(Artifact(wasm, inputs)))
  {
    hide Leb, Scan, ReadSource, SectionOf, CustomName;
    ScanNothing(parser, codec, wasm);
    SourceIsFound(parser, wasm, payload);
    SourceIsRead(parser, codec, wasm, payload, inputs);
    var bytes := wasm + SectionOf(payload);
    assert bytes[..8] == wasm[..8];
  }

  lemma ScanNothing<R>(parser: Parser, codec: Codec<R>, wasm: seq<byte>)
    ensures Probe(parser, codec, wasm) == Ok(None) <==>
      |wasm| >= 8 && wasm[..8] == MODULE_HEADER && Scan(parser, wasm, 8, None) == Ok(None)
  {
    hide ReadSection, CustomName, Leb;
  }

  // What the checks after the scan establish, when the header they compare
  // against starts at position `at`.
  lemma ReadSourceChecks<R>(parser: Parser, codec: Codec<R>, bytes: seq<byte>, at: nat, start: nat, end: nat,
                            wasm: seq<byte>, inputs: Inputs<R>)
    requires at <= start <= end <= |bytes|
    requires ReadSource(parser, codec, bytes, start, end) == Ok(Some(Artifact(wasm, inputs)))
    requires CustomName(parser, bytes[start..end]).Some?
    requires CustomName(parser, bytes[start..end]).value.0 == SECTION_NAME
    requires at == start - |[0] + Leb(end - start)|
    ensures wasm == bytes[..at] && bytes == wasm + SectionOf(bytes[start..end])
    ensures SourcePayload(parser, codec, wasm, bytes[start..end], inputs)
  {
    hide Leb, CustomName, Validate;
    var payload := bytes[start..end];
    CutInThree(bytes, at, start);
    assert bytes[start..] == payload;
  }

  lemma CutInThree(bytes: seq<byte>, at: nat, start: nat)
    requires at <= start <= |bytes|
    ensures bytes == bytes[..at] + (bytes[at..start] + bytes[start..])
  {
  }

  lemma AcceptedIsModuleWithSource<R>(
      parser: Parser, codec: Codec<R>, bytes: seq<byte>, wasm: seq<byte>, inputs: Inputs<R>)
    returns (payload: seq<byte>)
    requires Probe(parser, codec, bytes) == Ok(Some(Artifact(wasm, inputs)))
    ensures bytes == wasm + SectionOf(payload)
    ensures Probe(parser, codec, wasm) == Ok(None)
    ensures SourcePayload(parser, codec, wasm, payload, inputs)
  {
    hide Leb, ReadLeb, Scan, SectionOf, SourcePayload, CustomName;
    var at := ScanFinds(parser, bytes, 8);
    var (start, end) := ReadSection(parser, bytes, at).value;
    payload := bytes[start..end];
    NonEmptyPayload(parser, payload);
    HeaderIsCanonicalIff(bytes, at);
    ReadSourceChecks(parser, codec, bytes, at, start, end, wasm, inputs);
    assert bytes[..at][..8] == bytes[..8];
    ScanNothing(parser, codec, wasm);
  }

  lemma NonEmptyPayload(parser: Parser, payload: seq<byte>)
    requires CustomName(parser, payload).Some?
    ensures payload != []
  {
  }

  // The reader accepts exactly a module that carries no source, followed by a
  // section in canonical form whose payload describes that very module.
  lemma ProbeAcceptsExactly<R>(parser: Parser, codec: Codec<R>, bytes: seq<byte>, wasm: seq<byte>, inputs: Inputs<R>)
    ensures Probe(parser, codec, bytes) == Ok(Some(Artifact(wasm, inputs))) <==>
      exists payload ::
        && bytes == wasm + SectionOf(payload)
        && Probe(parser, codec, wasm) == Ok(None)
        && SourcePayload(parser, codec, wasm, payload, inputs)
  {
    hide Probe, SourcePayload, SectionOf;
    if Probe(parser, codec, bytes) == Ok(Some(Artifact(wasm, inputs))) {
      var payload := AcceptedIsModuleWithSource(parser, codec, bytes, wasm, inputs);
    } else if exists payload ::
        && bytes == wasm + SectionOf(payload)
        && Probe(parser, codec, wasm) == Ok(None)
        && SourcePayload(parser, codec, wasm, payload, inputs) {
      var payload :|
        && bytes == wasm + SectionOf(payload)
        && Probe(parser, codec, wasm) == Ok(None)
        && SourcePayload(parser, codec, wasm, payload, inputs);
      ModuleWithSourceIsAccepted(parser, codec, wasm, payload, inputs);
    }
  }

  // ---------- sealing ----------

  // Reading the name of a payload whose length prefix is `prefix`.
  lemma NamedPayload(parser: Parser, prefix: seq<byte>, rest: seq<byte>)
    requires parser.name(SECTION_NAME)
    requires ReadLeb(prefix, 0) == Some((16, |prefix|)) && |prefix| <= 5
    ensures CustomName(parser, prefix + SECTION_NAME + rest) == Some((SECTION_NAME, |prefix| + 16))
  {
    hide ReadLeb;
    var payload := prefix + SECTION_NAME + rest;
    ReadLebExtends(prefix, SECTION_NAME + rest, 0);
    assert payload == prefix + (SECTION_NAME + rest);
    assert payload[|prefix|..|prefix| + 16] == SECTION_NAME;
  }

  lemma PayloadDescribes<R>(
      parser: Parser, codec: Codec<R>, wasm: seq<byte>, inputs: Inputs<R>, prefix: seq<byte>, encoded: seq<byte>)
    requires parser.name(SECTION_NAME)
    requires codec.decode(encoded) == Some(inputs) && ValidatePortable(codec, inputs).None?
    requires ReadLeb(prefix, 0) == Some((16, |prefix|)) && |prefix| <= 5
    requires |prefix + SECTION_NAME + codec.digest(wasm) + encoded| <= MAX_SECTION_BYTES
    ensures SourcePayload(parser, codec, wasm, prefix + SECTION_NAME + codec.digest(wasm) + encoded, inputs)
  {
    hide ReadLeb, CustomName;
    var d := codec.digest(wasm);
    var payload := prefix + SECTION_NAME + d + encoded;
    assert payload == prefix + SECTION_NAME + (d + encoded);
    NamedPayload(parser, prefix, d + encoded);
    var data := payload[|prefix| + 16..];
    assert data == d + encoded;
    assert data[..DIGEST_LEN] == d && data[DIGEST_LEN..] == encoded;
  }

  // Sealing round trips: the reader gives back the module and the inputs bound
  // to the portable format, and a sealed module cannot be sealed again.
  lemma SealRoundTrip<R(!new)>(parser: Parser, codec: Codec<R>, wasm: seq<byte>, inputs: Inputs<R>, sealed: seq<byte>)
    requires Faithful(codec) && parser.name(SECTION_NAME)
    requires Sealed(parser, codec, wasm, inputs) == Ok(sealed)
    ensures Probe(parser, codec, sealed) ==
      Ok(Some(Artifact(wasm, BoundTo(codec, inputs, PORTABLE_WASM_DOMAIN))))
    ensures wasm <= sealed
    ensures forall inputs' :: Sealed(parser, codec, sealed, inputs') == Err(AlreadySealed)
  {
    var bound := BoundTo(codec, inputs, PORTABLE_WASM_DOMAIN);
    assert ReadLeb(Leb(16), 0) == Some((16, |Leb(16)|)) by { ReadInvertsLeb(16); }
    assert Leb(16) == [16];
    PayloadDescribes(parser, codec, wasm, bound, Leb(16), codec.encode(bound));
    hide Probe, SectionOf, SourcePayload;
    ModuleWithSourceIsAccepted(parser, codec, wasm, Payload(codec, wasm, bound), bound);
  }

  // Sealing succeeds exactly for a module that carries no source, inputs that
  // pass once they are bound to the portable format, and a payload within the
  // limit. What the inputs were bound to before does not matter.
  lemma SealSucceedsIff<R>(parser: Parser, codec: Codec<R>, wasm: seq<byte>, inputs: Inputs<R>)
    ensures var bound := inputs.(launcherDigest := codec.digest(PORTABLE_WASM_DOMAIN));
      Sealed(parser, codec, wasm, inputs).Ok? <==>
        && Probe(parser, codec, wasm) == Ok(None)
        && codec.audit(bound).None?
        && (inputs.optMask == 0 || inputs.optMask == codec.releaseMask)
        && 17 + 32 + |codec.encode(bound)| <= MAX_SECTION_BYTES
    ensures Sealed(parser, codec, wasm, inputs) == Err(AlreadySealed) <==>
      Probe(parser, codec, wasm).Ok? && Probe(parser, codec, wasm).value.Some?
    ensures forall digest: Digest ::
      Sealed(parser, codec, wasm, inputs.(launcherDigest := digest)) == Sealed(parser, codec, wasm, inputs)
  {
    ProbeIsNotSealing(parser, codec, wasm);
    hide Probe, SectionOf;
    var bound := BoundTo(codec, inputs, PORTABLE_WASM_DOMAIN);
    PayloadParts(codec, wasm, bound);
    assert |Payload(codec, wasm, bound)| == 49 + |codec.encode(bound)|;
    hide Payload;
    forall digest: Digest
      ensures Sealed(parser, codec, wasm, inputs.(launcherDigest := digest)) == Sealed(parser, codec, wasm, inputs)
    {
      assert BoundTo(codec, inputs.(launcherDigest := digest), PORTABLE_WASM_DOMAIN) == bound;
    }
  }

  // Which check refuses: the module's own, then the audit of the bound inputs,
  // then their profile, then the size.
  lemma SealRefusals<R>(parser: Parser, codec: Codec<R>, wasm: seq<byte>, inputs: Inputs<R>)
    ensures var bound := inputs.(launcherDigest := codec.digest(PORTABLE_WASM_DOMAIN));
      var probed, sealed := Probe(parser, codec, wasm), Sealed(parser, codec, wasm, inputs);
      && (probed.Err? ==> sealed == Err(probed.error))
      && (probed == Ok(None) && codec.audit(bound).Some? ==>
            sealed == Err(RejectedInputs(Audit(codec.audit(bound).value))))
      && (probed == Ok(None) && codec.audit(bound).None? && inputs.optMask !in {0, codec.releaseMask} ==>
            sealed == Err(RejectedInputs(UnknownProfile)))
      && (probed == Ok(None) && codec.audit(bound).None? && inputs.optMask in {0, codec.releaseMask} ==>
            17 + 32 + |codec.encode(bound)| > MAX_SECTION_BYTES ==> sealed == Err(TooLarge))
  {
    hide Probe, SectionOf;
    PayloadParts(codec, wasm, BoundTo(codec, inputs, PORTABLE_WASM_DOMAIN));
    hide Payload;
  }

  lemma ProbeIsNotSealing<R>(parser: Parser, codec: Codec<R>, wasm: seq<byte>)
    ensures Probe(parser, codec, wasm) != Err(AlreadySealed)
  {
    if |wasm| >= 8 {
      ScanIsNotSealing(parser, wasm, 8, None);
    }
  }

  lemma {:induction false} ScanIsNotSealing(parser: Parser, data: seq<byte>, position: nat, found: Option<(nat, nat)>)
    requires position <= |data|
    requires found.Some? ==> found.value.0 <= found.value.1 <= |data|
    ensures Scan(parser, data, position, found) != Err(AlreadySealed)
    decreases |data| - position
  {
    hide ReadSection, CustomName;
    if position < |data| && ReadSection(parser, data, position).Some? {
      var (start, end) := ReadSection(parser, data, position).value;
      ScanIsNotSealing(parser, data, end, found);
      ScanIsNotSealing(parser, data, end, Some((start, end)));
    }
  }

  // The length of the section's name is not required to be in shortest form:
  // an artifact that pads it is accepted beside the sealed one.
  lemma PaddedNameIsAccepted<R(!new)>(parser: Parser, codec: Codec<R>, wasm: seq<byte>, inputs: Inputs<R>)
    requires Faithful(codec) && parser.name(SECTION_NAME)
    requires Probe(parser, codec, wasm) == Ok(None)
    requires ValidatePortable(codec, inputs).None?
    requires |codec.encode(inputs)| <= MAX_SECTION_BYTES - 50
    ensures var padded := wasm + SectionOf([144, 0] + SECTION_NAME + codec.digest(wasm) + codec.encode(inputs));
      && Probe(parser, codec, padded) == Ok(Some(Artifact(wasm, inputs)))
      && padded != wasm + SectionOf(Payload(codec, wasm, inputs))
  {
    assert ReadLeb([144, 0], 1) == Some((0, 2));
    PayloadDescribes(parser, codec, wasm, inputs, [144, 0], codec.encode(inputs));
    var payload := [144, 0] + SECTION_NAME + codec.digest(wasm) + codec.encode(inputs);
    hide Probe, SourcePayload;
    ModuleWithSourceIsAccepted(parser, codec, wasm, payload, inputs);
    AppendedLonger(wasm, payload, Payload(codec, wasm, inputs));
  }

  // Nor are the inputs required to be encoded as the writer encodes them: any
  // other bytes that decode to them are accepted too.
  lemma OtherEncodingIsAccepted<R>(
      parser: Parser, codec: Codec<R>, wasm: seq<byte>, inputs: Inputs<R>, other: seq<byte>)
    requires parser.name(SECTION_NAME)
    requires Probe(parser, codec, wasm) == Ok(None)
    requires codec.decode(other) == Some(inputs) && other != codec.encode(inputs)
    requires ValidatePortable(codec, inputs).None?
    requires |other| <= MAX_SECTION_BYTES - 49
    ensures var bytes := wasm + SectionOf([16] + SECTION_NAME + codec.digest(wasm) + other);
      && Probe(parser, codec, bytes) == Ok(Some(Artifact(wasm, inputs)))
      && bytes != wasm + SectionOf(Payload(codec, wasm, inputs))
  {
    var payload := [16] + SECTION_NAME + codec.digest(wasm) + other;
    assert ReadLeb([16], 0) == Some((16, 1));
    PayloadDescribes(parser, codec, wasm, inputs, [16], other);
    PayloadParts(codec, wasm, inputs);
    assert payload[49..] == other;
    hide Probe, SourcePayload, SectionOf, Payload;
    ModuleWithSourceIsAccepted(parser, codec, wasm, payload, inputs);
    if wasm + SectionOf(payload) == wasm + SectionOf(Payload(codec, wasm, inputs)) {
      AppendedDetermines(wasm, payload, Payload(codec, wasm, inputs));
    }
  }

  lemma PayloadParts<R>(codec: Codec<R>, wasm: seq<byte>, inputs: Inputs<R>)
    ensures var payload := Payload(codec, wasm, inputs);
      && |payload| == 49 + |codec.encode(inputs)|
      && payload[0] == 16 && payload[1..17] == SECTION_NAME
      && payload[17..49] == codec.digest(wasm) && payload[49..] == codec.encode(inputs)
  {
    assert Leb(16) == [16];
  }

  // The name's length is read from one byte, sixteen, or from more bytes.
  lemma NameLength(parser: Parser, payload: seq<byte>)
    requires CustomName(parser, payload).Some? && CustomName(parser, payload).value.0 == SECTION_NAME
    ensures payload != []
    ensures payload[0] == 16 ==> CustomName(parser, payload).value.1 == 17 && payload[1..17] == SECTION_NAME
  {
  }

  // A payload that describes a module is the one the writer makes exactly when
  // the length of its name is one byte and its inputs are the writer's bytes.
  lemma CanonicalPayloadIff<R>(
      parser: Parser, codec: Codec<R>, wasm: seq<byte>, payload: seq<byte>, inputs: Inputs<R>)
    requires SourcePayload(parser, codec, wasm, payload, inputs)
    ensures payload == Payload(codec, wasm, inputs) <==>
      |payload| >= 49 && payload[0] == 16 && payload[49..] == codec.encode(inputs)
  {
    NameLength(parser, payload);
    PayloadParts(codec, wasm, inputs);
    hide CustomName, Payload;
    var canonical := Payload(codec, wasm, inputs);
    if |payload| >= 49 && payload[0] == 16 && payload[49..] == codec.encode(inputs) {
      assert payload[17..49] == payload[17..][..DIGEST_LEN];
      FourParts(payload);
      FourParts(canonical);
    }
  }

  lemma FourParts(payload: seq<byte>)
    requires |payload| >= 49
    ensures payload == [payload[0]] + payload[1..17] + payload[17..49] + payload[49..]
  {
  }

  // An accepted file is the one sealing its module and inputs writes exactly
  // when its section has the name's length in one byte and the writer's own
  // encoding of the inputs.
  lemma AcceptedIsSealedIff<R>(parser: Parser, codec: Codec<R>, bytes: seq<byte>, wasm: seq<byte>, inputs: Inputs<R>)
    returns (payload: seq<byte>)
    requires Probe(parser, codec, bytes) == Ok(Some(Artifact(wasm, inputs)))
    ensures bytes == wasm + SectionOf(payload) && payload != []
    ensures bytes == wasm + SectionOf(Payload(codec, wasm, inputs)) <==>
      |payload| >= 49 && payload[0] == 16 && payload[49..] == codec.encode(inputs)
    ensures Sealed(parser, codec, wasm, inputs) == Ok(bytes) <==>
      |payload| >= 49 && payload[0] == 16 && payload[49..] == codec.encode(inputs)
  {
    hide Probe, SectionOf, CustomName, Payload;
    payload := AcceptedIsModuleWithSource(parser, codec, bytes, wasm, inputs);
    NonEmptyPayload(parser, payload);
    CanonicalPayloadIff(parser, codec, wasm, payload, inputs);
    var canonical := Payload(codec, wasm, inputs);
    if wasm + SectionOf(payload) == wasm + SectionOf(canonical) {
      AppendedDetermines(wasm, payload, canonical);
    }
    AcceptedIsBound(codec, inputs);
  }

  lemma AcceptedIsBound<R>(codec: Codec<R>, inputs: Inputs<R>)
    requires ValidatePortable(codec, inputs).None?
    ensures BoundTo(codec, inputs, PORTABLE_WASM_DOMAIN) == inputs
  {
  }

  lemma AppendedDetermines(wasm: seq<byte>, a: seq<byte>, b: seq<byte>)
    requires wasm + SectionOf(a) == wasm + SectionOf(b)
    ensures a == b
  {
    if |a| > |b| {
      AppendedLonger(wasm, a, b);
    } else if |b| > |a| {
      AppendedLonger(wasm, b, a);
    } else {
      hide Leb;
      var n := |wasm| + 1 + |Leb(|a|)|;
      assert (wasm + SectionOf(a))[n..] == a;
      assert (wasm + SectionOf(b))[n..] == b;
    }
  }

  lemma AppendedLonger(wasm: seq<byte>, a: seq<byte>, b: seq<byte>)
    requires |a| > |b|
    ensures wasm + SectionOf(a) != wasm + SectionOf(b)
  {
    LebGrows(|b|, |a|);
  }

  lemma {:induction false} LebGrows(a: nat, b: nat)
    requires a <= b
    ensures |Leb(a)| <= |Leb(b)|
    decreases a
  {
    if a >= 128 {
      LebGrows(a / 128, b / 128);
    }
  }
}
