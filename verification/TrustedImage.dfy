// The trusted-publisher application image: a launcher, the application Wasm,
// its binding plan and its source inputs, followed by a fixed 232-byte
// descriptor. Sizes and offsets are those of a 64-bit platform.

module TrustedImage {
  import opened Prelude
  import opened Bytes
  import opened SourceInputs
  import opened Layout

  // "WITCHY-EXE-0092!"
  const MAGIC: seq<byte> := [87, 73, 84, 67, 72, 89, 45, 69, 88, 69, 45, 48, 48, 57, 50, 33]
  const FORMAT_VERSION: nat := 2
  const HOST_ABI: nat := 1
  const LEGACY_DESCRIPTOR_LEN: nat := 184
  const DESCRIPTOR_PREFIX_LEN: nat := 200
  const DESCRIPTOR_LEN: nat := 232

  datatype Error =
    | Legacy | DescriptorDigest | UnsupportedFormat(nat) | UnsupportedAbi(nat)
    | RangeOverflow | BadRanges | DigestMismatch(what: string)
    | UndecodableInputs | RejectedInputs(Complaint)
    | InvalidWasm | LaunchContract(message: string) | NoLaunchContract
    | AlreadyPackaged | TooLarge | Disappeared

  // What the launcher knows about Wasm: validation, and the launch contract
  // a module carries.
  datatype Wasm = Wasm(
    valid: seq<byte> -> bool,
    launchContract: seq<byte> -> Result<Option<seq<byte>>, string>)

  datatype Application = Application(wasm: seq<byte>, bindings: seq<byte>, sourceInputs: seq<byte>)

  // ---------- the reader ----------

  function ReadU32(bytes: seq<byte>, offset: nat): nat
    requires offset + 4 <= |bytes|
  {
    FromLittleEndian(bytes[offset..offset + 4])
  }

  function ReadUsize(bytes: seq<byte>, offset: nat): nat
    requires offset + 8 <= |bytes|
  {
    FromLittleEndian(bytes[offset..offset + 8])
  }

  predicate LegacyMagic(image: seq<byte>) {
    && |image| >= LEGACY_DESCRIPTOR_LEN
    && image[|image| - LEGACY_DESCRIPTOR_LEN..][..|MAGIC|] == MAGIC
  }

  predicate HasDescriptor(image: seq<byte>) {
    |image| >= DESCRIPTOR_LEN && image[|image| - DESCRIPTOR_LEN..][..|MAGIC|] == MAGIC
  }

  function Probe<R>(codec: Codec<R>, wasm: Wasm, image: seq<byte>): Result<Option<Application>, Error> {
    if LegacyMagic(image) then Err(Legacy)
    else if !HasDescriptor(image) then Ok(None)
    else
      var descriptor := image[|image| - DESCRIPTOR_LEN..];
      if codec.digest(descriptor[..DESCRIPTOR_PREFIX_LEN]) != descriptor[DESCRIPTOR_PREFIX_LEN..] then
        Err(DescriptorDigest)
      else if ReadU32(descriptor, 16) != FORMAT_VERSION then Err(UnsupportedFormat(ReadU32(descriptor, 16)))
      else if ReadU32(descriptor, 20) != HOST_ABI then Err(UnsupportedAbi(ReadU32(descriptor, 20)))
      else ReadPayload(codec, wasm, image, descriptor)
  }

  function ReadPayload<R>(codec: Codec<R>, wasm: Wasm, image: seq<byte>, descriptor: seq<byte>)
    : Result<Option<Application>, Error>
    requires |image| >= DESCRIPTOR_LEN == |descriptor|
  {
    var wasmOffset, wasmLen := ReadUsize(descriptor, 24), ReadUsize(descriptor, 32);
    var bindingsOffset, bindingsLen := ReadUsize(descriptor, 40), ReadUsize(descriptor, 48);
    var inputsOffset, inputsLen := ReadUsize(descriptor, 152), ReadUsize(descriptor, 160);
    var tailOffset := |image| - DESCRIPTOR_LEN;
    if wasmOffset + wasmLen >= TWO_TO_THE_64 || bindingsOffset + bindingsLen >= TWO_TO_THE_64
       || inputsOffset + inputsLen >= TWO_TO_THE_64 then Err(RangeOverflow)
    else if wasmOffset == 0 || wasmOffset + wasmLen != bindingsOffset
       || bindingsOffset + bindingsLen != inputsOffset || inputsOffset + inputsLen != tailOffset then Err(BadRanges)
    else
      // The ranges are contiguous and end before the descriptor, so slicing
      // the image cannot fail.
      var launcher := image[..wasmOffset];
      var app := Application(image[wasmOffset..bindingsOffset], image[bindingsOffset..inputsOffset],
                             image[inputsOffset..tailOffset]);
      if codec.digest(app.wasm) != descriptor[56..88] then Err(DigestMismatch("application WASM"))
      else if codec.digest(app.bindings) != descriptor[120..152] then Err(DigestMismatch("binding plan"))
      else if codec.digest(app.sourceInputs) != descriptor[168..200] then Err(DigestMismatch("source inputs"))
      else match codec.decode(app.sourceInputs)
        case None => Err(UndecodableInputs)
        case Some(inputs) => match ValidateTrusted(codec, inputs, launcher)
          case Some(complaint) => Err(RejectedInputs(complaint))
          case None =>
            if !wasm.valid(app.wasm) then Err(InvalidWasm)
            else match wasm.launchContract(app.wasm)
              case Err(message) => Err(LaunchContract(message))
              case Ok(None) => Err(NoLaunchContract)
              case Ok(Some(launch)) =>
                if codec.digest(launch) != descriptor[88..120] then Err(DigestMismatch("`witchy.launch` contract"))
                else Ok(Some(app))
  }

  // ---------- the writer ----------

  // The thirteen fields of the descriptor before its own digest.
  function Fields<R>(codec: Codec<R>, wasmOffset: nat, app: Application, launch: seq<byte>): (f: seq<seq<byte>>)
    ensures |f| == 13
  {
    [ MAGIC, ToLittleEndian(FORMAT_VERSION, 4), ToLittleEndian(HOST_ABI, 4),
      ToLittleEndian(wasmOffset, 8), ToLittleEndian(|app.wasm|, 8),
      ToLittleEndian(wasmOffset + |app.wasm|, 8), ToLittleEndian(|app.bindings|, 8),
      codec.digest(app.wasm), codec.digest(launch), codec.digest(app.bindings),
      ToLittleEndian(wasmOffset + |app.wasm| + |app.bindings|, 8), ToLittleEndian(|app.sourceInputs|, 8),
      codec.digest(app.sourceInputs) ]
  }

  lemma FieldsFit<R>(codec: Codec<R>, wasmOffset: nat, app: Application, launch: seq<byte>)
    ensures Fits(Fields(codec, wasmOffset, app, launch), OFFSETS)
  {
    hide ToLittleEndian;
    var f := Fields(codec, wasmOffset, app, launch);
    assert |f[0]| == 16 && |f[1]| == 4 && |f[2]| == 4;
    assert |f[3]| == 8 && |f[4]| == 8 && |f[5]| == 8 && |f[6]| == 8;
    assert |f[7]| == 32 && |f[8]| == 32 && |f[9]| == 32;
    assert |f[10]| == 8 && |f[11]| == 8 && |f[12]| == 32;
  }

  const OFFSETS: seq<nat> := [0, 16, 20, 24, 32, 40, 48, 56, 88, 120, 152, 160, 168, 200]

  function DescriptorPrefix<R>(codec: Codec<R>, wasmOffset: nat, app: Application, launch: seq<byte>): (d: seq<byte>)
    ensures |d| == DESCRIPTOR_PREFIX_LEN
  {
    var fields := Fields(codec, wasmOffset, app, launch);
    FieldsFit(codec, wasmOffset, app, launch);
    FitsAscend(fields, OFFSETS, 0);
    Concat(fields)
  }

  function Descriptor<R>(codec: Codec<R>, wasmOffset: nat, app: Application, launch: seq<byte>): (d: seq<byte>)
    ensures |d| == DESCRIPTOR_LEN
  {
    var prefix := DescriptorPrefix(codec, wasmOffset, app, launch);
    prefix + codec.digest(prefix)
  }

  function PayloadLength(app: Application): nat {
    |app.wasm| + |app.bindings| + |app.sourceInputs|
  }

  function Image<R>(codec: Codec<R>, launcher: seq<byte>, app: Application, launch: seq<byte>): seq<byte> {
    launcher + app.wasm + app.bindings + app.sourceInputs + Descriptor(codec, |launcher|, app, launch)
  }

  // ---------- the descriptor's layout ----------

  // Every field of a descriptor prefix is in its place.
  ghost predicate LaidOut<R>(codec: Codec<R>, d: seq<byte>, wasmOffset: nat, app: Application, launch: seq<byte>) {
    && |d| == DESCRIPTOR_PREFIX_LEN
    && var fields := Fields(codec, wasmOffset, app, launch);
       forall i :: 0 <= i < 13 ==> Slot(d, OFFSETS, i) == fields[i]
  }

  lemma LayoutIsUnique<R>(codec: Codec<R>, d: seq<byte>, wasmOffset: nat, app: Application, launch: seq<byte>)
    ensures LaidOut(codec, d, wasmOffset, app, launch) <==> d == DescriptorPrefix(codec, wasmOffset, app, launch)
  {
    var fields := Fields(codec, wasmOffset, app, launch);
    FieldsFit(codec, wasmOffset, app, launch);
    if LaidOut(codec, d, wasmOffset, app, launch) {
      assert OFFSETS[|fields|] == 200;
      FieldsDetermine(d, fields, OFFSETS);
    } else if d == DescriptorPrefix(codec, wasmOffset, app, launch) {
      forall i | 0 <= i < 13 ensures Slot(d, OFFSETS, i) == fields[i] {
        FieldOf(fields, OFFSETS, i);
      }
    }
  }

  // ---------- what the reader sees in a descriptor ----------

  ghost predicate ReadsAs<R>(codec: Codec<R>, d: seq<byte>, wasmOffset: nat, app: Application, launch: seq<byte>)
    requires |d| == DESCRIPTOR_LEN
  {
    && d[..16] == MAGIC
    && ReadU32(d, 16) == FORMAT_VERSION && ReadU32(d, 20) == HOST_ABI
    && ReadUsize(d, 24) == wasmOffset && ReadUsize(d, 32) == |app.wasm|
    && ReadUsize(d, 40) == wasmOffset + |app.wasm| && ReadUsize(d, 48) == |app.bindings|
    && d[56..88] == codec.digest(app.wasm)
    && d[88..120] == codec.digest(launch)
    && d[120..152] == codec.digest(app.bindings)
    && ReadUsize(d, 152) == wasmOffset + |app.wasm| + |app.bindings|
    && ReadUsize(d, 160) == |app.sourceInputs|
    && d[168..200] == codec.digest(app.sourceInputs)
  }

  // A fixed-width field holds a number exactly when it holds its encoding.
  lemma NumberField(bytes: seq<byte>, value: nat)
    requires (|bytes| == 4 && value < TWO_TO_THE_32) || (|bytes| == 8 && value < TWO_TO_THE_64)
    ensures FromLittleEndian(bytes) == value <==> bytes == ToLittleEndian(value, |bytes|)
  {
    MachineWidths();
    LittleEndianRoundTrip(value, |bytes|);
    LittleEndianIsUnique(bytes);
  }

  lemma NumberFields<R>(codec: Codec<R>, d: seq<byte>, wasmOffset: nat, app: Application)
    requires |d| == DESCRIPTOR_LEN && wasmOffset + PayloadLength(app) < TWO_TO_THE_64
    ensures ReadU32(d, 16) == FORMAT_VERSION <==> d[16..20] == ToLittleEndian(FORMAT_VERSION, 4)
    ensures ReadU32(d, 20) == HOST_ABI <==> d[20..24] == ToLittleEndian(HOST_ABI, 4)
    ensures ReadUsize(d, 24) == wasmOffset <==> d[24..32] == ToLittleEndian(wasmOffset, 8)
    ensures ReadUsize(d, 32) == |app.wasm| <==> d[32..40] == ToLittleEndian(|app.wasm|, 8)
    ensures ReadUsize(d, 40) == wasmOffset + |app.wasm| <==>
      d[40..48] == ToLittleEndian(wasmOffset + |app.wasm|, 8)
    ensures ReadUsize(d, 48) == |app.bindings| <==> d[48..56] == ToLittleEndian(|app.bindings|, 8)
    ensures ReadUsize(d, 152) == wasmOffset + |app.wasm| + |app.bindings| <==>
      d[152..160] == ToLittleEndian(wasmOffset + |app.wasm| + |app.bindings|, 8)
    ensures ReadUsize(d, 160) == |app.sourceInputs| <==> d[160..168] == ToLittleEndian(|app.sourceInputs|, 8)
  {
    hide FromLittleEndian, ToLittleEndian;
    NumberField(d[16..20], FORMAT_VERSION);
    NumberField(d[20..24], HOST_ABI);
    NumberField(d[24..32], wasmOffset);
    NumberField(d[32..40], |app.wasm|);
    NumberField(d[40..48], wasmOffset + |app.wasm|);
    NumberField(d[48..56], |app.bindings|);
    NumberField(d[152..160], wasmOffset + |app.wasm| + |app.bindings|);
    NumberField(d[160..168], |app.sourceInputs|);
  }

  // Slot i of the descriptor's prefix is the corresponding slice.
  lemma SlotIsSlice(d: seq<byte>, i: nat)
    requires |d| == DESCRIPTOR_LEN && i < 13
    ensures Slot(d[..DESCRIPTOR_PREFIX_LEN], OFFSETS, i) == d[OFFSETS[i]..OFFSETS[i + 1]]
  {
    var lo, hi := OFFSETS[i], OFFSETS[i + 1];
    assert d[..DESCRIPTOR_PREFIX_LEN][lo..hi] == d[lo..hi];
  }

  // The fields as slices of the whole descriptor.
  ghost predicate SlicedAs<R>(codec: Codec<R>, d: seq<byte>, wasmOffset: nat, app: Application, launch: seq<byte>)
    requires |d| == DESCRIPTOR_LEN
  {
    && d[0..16] == MAGIC
    && d[16..20] == ToLittleEndian(FORMAT_VERSION, 4)
    && d[20..24] == ToLittleEndian(HOST_ABI, 4)
    && d[24..32] == ToLittleEndian(wasmOffset, 8)
    && d[32..40] == ToLittleEndian(|app.wasm|, 8)
    && d[40..48] == ToLittleEndian(wasmOffset + |app.wasm|, 8)
    && d[48..56] == ToLittleEndian(|app.bindings|, 8)
    && d[56..88] == codec.digest(app.wasm)
    && d[88..120] == codec.digest(launch)
    && d[120..152] == codec.digest(app.bindings)
    && d[152..160] == ToLittleEndian(wasmOffset + |app.wasm| + |app.bindings|, 8)
    && d[160..168] == ToLittleEndian(|app.sourceInputs|, 8)
    && d[168..200] == codec.digest(app.sourceInputs)
  }

  lemma LayoutIsSlices<R>(codec: Codec<R>, d: seq<byte>, wasmOffset: nat, app: Application, launch: seq<byte>)
    requires |d| == DESCRIPTOR_LEN
    ensures LaidOut(codec, d[..DESCRIPTOR_PREFIX_LEN], wasmOffset, app, launch) <==>
      SlicedAs(codec, d, wasmOffset, app, launch)
  {
    hide ToLittleEndian, Slot;
    SlotIsSlice(d, 0);
    SlotIsSlice(d, 1);
    SlotIsSlice(d, 2);
    SlotIsSlice(d, 3);
    SlotIsSlice(d, 4);
    SlotIsSlice(d, 5);
    SlotIsSlice(d, 6);
    SlotIsSlice(d, 7);
    SlotIsSlice(d, 8);
    SlotIsSlice(d, 9);
    SlotIsSlice(d, 10);
    SlotIsSlice(d, 11);
    SlotIsSlice(d, 12);
  }

  // Reading the fields and being laid out are the same thing.
  lemma ReadsAsIsLayout<R>(codec: Codec<R>, d: seq<byte>, wasmOffset: nat, app: Application, launch: seq<byte>)
    requires |d| == DESCRIPTOR_LEN && wasmOffset + PayloadLength(app) < TWO_TO_THE_64
    ensures ReadsAs(codec, d, wasmOffset, app, launch) <==>
      d[..DESCRIPTOR_PREFIX_LEN] == DescriptorPrefix(codec, wasmOffset, app, launch)
  {
    hide FromLittleEndian, ToLittleEndian, DescriptorPrefix, LaidOut;
    LayoutIsUnique(codec, d[..DESCRIPTOR_PREFIX_LEN], wasmOffset, app, launch);
    LayoutIsSlices(codec, d, wasmOffset, app, launch);
    NumberFields(codec, d, wasmOffset, app);
    assert d[0..16] == d[..16];
  }

  // ---------- the reader accepts exactly the written images ----------

  // The parts of an image are acceptable together.
  ghost predicate Acceptable<R>(codec: Codec<R>, wasm: Wasm, launcher: seq<byte>, app: Application, launch: seq<byte>) {
    && launcher != []
    && |launcher| + PayloadLength(app) < TWO_TO_THE_64
    && codec.decode(app.sourceInputs).Some?
    && ValidateTrusted(codec, codec.decode(app.sourceInputs).value, launcher).None?
    && wasm.valid(app.wasm)
    && wasm.launchContract(app.wasm) == Ok(Some(launch))
  }

  // The sixteen bytes that the legacy check looks at are the length of the
  // binding plan and the first half of the Wasm digest's first sixteen bytes.
  predicate LegacyCollision<R>(codec: Codec<R>, app: Application) {
    ToLittleEndian(|app.bindings|, 8) + codec.digest(app.wasm)[..8] == MAGIC
  }

  lemma ImageParts<R>(codec: Codec<R>, launcher: seq<byte>, app: Application, launch: seq<byte>)
    ensures var image, n := Image(codec, launcher, app, launch), |launcher|;
      var b := n + |app.wasm|; var i := b + |app.bindings|; var t := i + |app.sourceInputs|;
      && |image| == t + DESCRIPTOR_LEN
      && image[..n] == launcher && image[n..b] == app.wasm && image[b..i] == app.bindings
      && image[i..t] == app.sourceInputs && image[t..] == Descriptor(codec, n, app, launch)
  {
    hide DescriptorPrefix;
  }

  lemma TailWindow(image: seq<byte>, d: seq<byte>)
    requires |d| == DESCRIPTOR_LEN <= |image| && d == image[|image| - DESCRIPTOR_LEN..]
    ensures image[|image| - LEGACY_DESCRIPTOR_LEN..][..16] == d[48..56] + d[56..88][..8]
  {
    var window, parts := image[|image| - LEGACY_DESCRIPTOR_LEN..][..16], d[48..56] + d[56..88][..8];
    assert |window| == |parts| == 16;
    forall i | 0 <= i < 16 ensures window[i] == parts[i] {
      assert window[i] == image[|image| - LEGACY_DESCRIPTOR_LEN + i] == d[48 + i];
      assert parts[i] == d[48 + i];
    }
  }

  lemma LegacyWindow<R>(codec: Codec<R>, launcher: seq<byte>, app: Application, launch: seq<byte>)
    requires |launcher| + PayloadLength(app) < TWO_TO_THE_64
    ensures LegacyMagic(Image(codec, launcher, app, launch)) <==> LegacyCollision(codec, app)
  {
    hide FromLittleEndian, ToLittleEndian, DescriptorPrefix, Image;
    ImageParts(codec, launcher, app, launch);
    var image, d := Image(codec, launcher, app, launch), Descriptor(codec, |launcher|, app, launch);
    TailWindow(image, d);
    DescriptorReads(codec, |launcher|, app, launch);
    NumberFields(codec, d, |launcher|, app);
  }

  lemma DescriptorReads<R>(codec: Codec<R>, wasmOffset: nat, app: Application, launch: seq<byte>)
    requires wasmOffset + PayloadLength(app) < TWO_TO_THE_64
    ensures var d := Descriptor(codec, wasmOffset, app, launch);
      var prefix := DescriptorPrefix(codec, wasmOffset, app, launch);
      && ReadsAs(codec, d, wasmOffset, app, launch)
      && d[..DESCRIPTOR_PREFIX_LEN] == prefix && d[DESCRIPTOR_PREFIX_LEN..] == codec.digest(prefix)
  {
    hide FromLittleEndian, ToLittleEndian, DescriptorPrefix, ReadsAs;
    var d := Descriptor(codec, wasmOffset, app, launch);
    assert d[..DESCRIPTOR_PREFIX_LEN] == DescriptorPrefix(codec, wasmOffset, app, launch);
    ReadsAsIsLayout(codec, d, wasmOffset, app, launch);
  }

  // An acceptable image is accepted, unless the legacy check misfires.
  lemma ImageIsAccepted<R>(codec: Codec<R>, wasm: Wasm, launcher: seq<byte>, app: Application, launch: seq<byte>)
    requires Acceptable(codec, wasm, launcher, app, launch)
    ensures Probe(codec, wasm, Image(codec, launcher, app, launch)) ==
      if LegacyCollision(codec, app) then Err(Legacy) else Ok(Some(app))
  {
    hide FromLittleEndian, ToLittleEndian, DescriptorPrefix, Descriptor, Image, ReadU32, ReadUsize, LegacyCollision;
    ImageParts(codec, launcher, app, launch);
    LegacyWindow(codec, launcher, app, launch);
    DescriptorReads(codec, |launcher|, app, launch);
  }

  // Without a launcher the image is refused.
  lemma EmptyLauncherIsRefused<R>(codec: Codec<R>, wasm: Wasm, app: Application, launch: seq<byte>)
    requires PayloadLength(app) < TWO_TO_THE_64
    ensures Probe(codec, wasm, Image(codec, [], app, launch)).Err?
  {
    hide FromLittleEndian, ToLittleEndian, DescriptorPrefix, Descriptor, Image, ReadU32, ReadUsize, LegacyCollision;
    ImageParts(codec, [], app, launch);
    DescriptorReads(codec, 0, app, launch);
  }

  // Whatever the reader accepts is such an image, part for part.
  lemma AcceptedIsImage<R>(codec: Codec<R>, wasm: Wasm, image: seq<byte>, app: Application)
    returns (launcher: seq<byte>, launch: seq<byte>)
    requires Probe(codec, wasm, image) == Ok(Some(app))
    ensures Acceptable(codec, wasm, launcher, app, launch) && !LegacyCollision(codec, app)
    ensures image == Image(codec, launcher, app, launch)
  {
    hide FromLittleEndian, ToLittleEndian, DescriptorPrefix, ReadU32, ReadUsize, LegacyCollision;
    var d := image[|image| - DESCRIPTOR_LEN..];
    var wasmOffset, bindingsOffset, inputsOffset := ReadUsize(d, 24), ReadUsize(d, 40), ReadUsize(d, 152);
    var tail := |image| - DESCRIPTOR_LEN;
    launcher := image[..wasmOffset];
    launch := wasm.launchContract(app.wasm).value.value;
    assert ReadsAs(codec, d, |launcher|, app, launch);
    ReadsAsIsLayout(codec, d, |launcher|, app, launch);
    assert d == d[..DESCRIPTOR_PREFIX_LEN] + d[DESCRIPTOR_PREFIX_LEN..];
    assert d == Descriptor(codec, |launcher|, app, launch);
    assert image == launcher + app.wasm + app.bindings + app.sourceInputs + d;
    LegacyWindow(codec, launcher, app, launch);
  }

  // The images the reader accepts are exactly the acceptable ones outside the
  // legacy collision.
  lemma ProbeAcceptsExactly<R>(codec: Codec<R>, wasm: Wasm, image: seq<byte>, app: Application)
    ensures Probe(codec, wasm, image) == Ok(Some(app)) <==>
      exists launcher, launch ::
        && image == Image(codec, launcher, app, launch)
        && Acceptable(codec, wasm, launcher, app, launch)
        && !LegacyCollision(codec, app)
  {
    hide Image, Acceptable, LegacyCollision, Probe;
    if Probe(codec, wasm, image) == Ok(Some(app)) {
      var launcher, launch := AcceptedIsImage(codec, wasm, image, app);
    } else {
      forall launcher, launch |
        && image == Image(codec, launcher, app, launch)
        && Acceptable(codec, wasm, launcher, app, launch)
        && !LegacyCollision(codec, app)
        ensures false
      {
        ImageIsAccepted(codec, wasm, launcher, app, launch);
      }
    }
  }

  // The binding-plan length that the legacy check would mistake for the magic.
  const MAGIC_LENGTH: nat := 0x452D_5948_4354_4957

  lemma MagicLength()
    ensures FromLittleEndian(MAGIC[..8]) == MAGIC_LENGTH
    ensures ToLittleEndian(MAGIC_LENGTH, 8) == MAGIC[..8]
  {
    var m := MAGIC[..8];
    assert m == [87, 73, 84, 67, 72, 89, 45, 69];
    assert m[7..] == [69] && m[6..][1..] == m[7..] && m[5..][1..] == m[6..] && m[4..][1..] == m[5..];
    assert m[3..][1..] == m[4..] && m[2..][1..] == m[3..] && m[1..][1..] == m[2..];
    assert FromLittleEndian(m[7..]) == 0x45;
    assert FromLittleEndian(m[6..]) == 0x452D;
    assert FromLittleEndian(m[5..]) == 0x45_2D59;
    assert FromLittleEndian(m[4..]) == 0x452D_5948;
    assert FromLittleEndian(m[3..]) == 0x45_2D59_4843;
    assert FromLittleEndian(m[2..]) == 0x452D_5948_4354;
    assert FromLittleEndian(m[1..]) == 0x45_2D59_4843_5449;
    LittleEndianIsUnique(m);
  }

  // The legacy check misfires for one length of the binding plan only, and
  // then only when the Wasm digest starts with the rest of the magic.
  lemma CollisionIff<R>(codec: Codec<R>, app: Application)
    requires |app.bindings| < TWO_TO_THE_64
    ensures LegacyCollision(codec, app) <==>
      |app.bindings| == MAGIC_LENGTH && codec.digest(app.wasm)[..8] == MAGIC[8..]
    ensures |app.bindings| < 0x4000_0000_0000_0000 ==> !LegacyCollision(codec, app)
  {
    hide FromLittleEndian, ToLittleEndian;
    MagicLength();
    var le, half := ToLittleEndian(|app.bindings|, 8), codec.digest(app.wasm)[..8];
    assert (le + half)[..8] == le && (le + half)[8..] == half;
    assert MAGIC == MAGIC[..8] + MAGIC[8..];
    NumberField(le, |app.bindings|);
    NumberField(le, MAGIC_LENGTH);
  }

  // ---------- packaging ----------

  // What packaging an application promises.
  function Packaged<R>(codec: Codec<R>, wasm: Wasm, template: seq<byte>, code: seq<byte>, bindings: seq<byte>,
                       inputs: Inputs<R>): Result<seq<byte>, Error>
  {
    match Probe(codec, wasm, template)
    case Err(error) => Err(error)
    case Ok(Some(_)) => Err(AlreadyPackaged)
    case Ok(None) =>
      if !wasm.valid(code) then Err(InvalidWasm)
      else match wasm.launchContract(code)
        case Err(message) => Err(LaunchContract(message))
        case Ok(None) => Err(NoLaunchContract)
        case Ok(Some(launch)) =>
          var bound := BoundTo(codec, inputs, template);
          match ValidateTrusted(codec, bound, template)
          case Some(complaint) => Err(RejectedInputs(complaint))
          case None =>
            var app := Application(code, bindings, codec.encode(bound));
            if |template| + PayloadLength(app) + DESCRIPTOR_LEN >= TWO_TO_THE_64 then Err(TooLarge)
            else Ok(Image(codec, template, app, launch))
  }

  // Append the fields one after the other, then the digest of them all.
  method BuildDescriptor<R>(codec: Codec<R>, wasmOffset: nat, app: Application, launch: seq<byte>)
    returns (descriptor: seq<byte>)
    ensures descriptor == Descriptor(codec, wasmOffset, app, launch)
  {
    hide Fields;
    var fields := Fields(codec, wasmOffset, app, launch);
    descriptor := [];
    for i := 0 to |fields|
      invariant descriptor == Concat(fields[..i])
    {
      ConcatOneMore(fields[..i], fields[i]);
      assert fields[..i + 1] == fields[..i] + [fields[i]];
      descriptor := descriptor + fields[i];
    }
    assert fields[..|fields|] == fields;
    descriptor := descriptor + codec.digest(descriptor);
  }

  method Package<R>(codec: Codec<R>, wasm: Wasm, template: seq<byte>, code: seq<byte>, bindings: seq<byte>,
                    inputs: Inputs<R>) returns (r: Result<seq<byte>, Error>)
    ensures r == Packaged(codec, wasm, template, code, bindings, inputs)
  {
    hide Probe, ReadPayload, Descriptor;
    var probed := Probe(codec, wasm, template);
    if probed.Err? {
      return Err(probed.error);
    }
    if probed.value.Some? {
      return Err(AlreadyPackaged);
    }
    if !wasm.valid(code) {
      return Err(InvalidWasm);
    }
    var contract := wasm.launchContract(code);
    if contract.Err? {
      return Err(LaunchContract(contract.error));
    }
    if contract.value.None? {
      return Err(NoLaunchContract);
    }
    var launch := contract.value.value;
    var bound := inputs.(launcherDigest := codec.digest(template));
    var complaint := ValidateTrusted(codec, bound, template);
    if complaint.Some? {
      return Err(RejectedInputs(complaint.value));
    }
    var app := Application(code, bindings, codec.encode(bound));
    // The offsets and then the whole image must stay within 64 bits.
    if |template| + |code| >= TWO_TO_THE_64 {
      return Err(TooLarge);
    }
    if |template| + |code| + |bindings| >= TWO_TO_THE_64 {
      return Err(TooLarge);
    }
    var descriptor := BuildDescriptor(codec, |template|, app, launch);
    if |template| + PayloadLength(app) + DESCRIPTOR_LEN >= TWO_TO_THE_64 {
      return Err(TooLarge);
    }
    var image := template;
    image := image + code;
    image := image + bindings;
    image := image + app.sourceInputs;
    image := image + descriptor;
    return Ok(image);
  }

  // An image without an application is one whose tail shows neither magic.
  lemma PlainImageIff<R>(codec: Codec<R>, wasm: Wasm, image: seq<byte>)
    ensures Probe(codec, wasm, image) == Ok(None) <==>
      && (|image| >= 184 ==> image[|image| - 184..|image| - 168] != MAGIC)
      && (|image| >= 232 ==> image[|image| - 232..|image| - 216] != MAGIC)
  {
    hide ReadU32, ReadUsize;
    if |image| >= 184 {
      assert image[|image| - 184..][..16] == image[|image| - 184..|image| - 168];
    }
    if |image| >= 232 {
      assert image[|image| - 232..][..16] == image[|image| - 232..|image| - 216];
    }
  }

  // Packaging succeeds exactly for a template without an application, valid
  // Wasm with a launch contract, inputs that pass once they are bound to the
  // template, and an image within 64 bits. What the inputs were bound to before
  // does not matter.
  lemma PackageSucceedsIff<R>(codec: Codec<R>, wasm: Wasm, template: seq<byte>, code: seq<byte>, bindings: seq<byte>,
                              inputs: Inputs<R>)
    ensures var bound := inputs.(launcherDigest := codec.digest(template));
      Packaged(codec, wasm, template, code, bindings, inputs).Ok? <==>
        && Probe(codec, wasm, template) == Ok(None)
        && wasm.valid(code) && wasm.launchContract(code).Ok? && wasm.launchContract(code).value.Some?
        && codec.audit(bound).None? && inputs.targetManifest.Some?
        && |template| + |code| + |bindings| + |codec.encode(bound)| + 232 < TWO_TO_THE_64
    ensures forall digest: Digest ::
      Packaged(codec, wasm, template, code, bindings, inputs.(launcherDigest := digest)) ==
        Packaged(codec, wasm, template, code, bindings, inputs)
  {
    hide Probe, Image;
    var bound := BoundTo(codec, inputs, template);
    forall digest: Digest
      ensures Packaged(codec, wasm, template, code, bindings, inputs.(launcherDigest := digest)) ==
        Packaged(codec, wasm, template, code, bindings, inputs)
    {
      assert BoundTo(codec, inputs.(launcherDigest := digest), template) == bound;
    }
  }

  // Which check refuses: the template's, then the Wasm's, then the launch
  // contract's, then the audit of the bound inputs, their manifest and the size.
  lemma PackageRefusals<R>(codec: Codec<R>, wasm: Wasm, template: seq<byte>, code: seq<byte>, bindings: seq<byte>,
                           inputs: Inputs<R>)
    ensures var bound := inputs.(launcherDigest := codec.digest(template));
      var probed, packaged := Probe(codec, wasm, template), Packaged(codec, wasm, template, code, bindings, inputs);
      var contract := wasm.launchContract(code);
      && (probed.Err? ==> packaged == Err(probed.error))
      && (probed.Ok? && probed.value.Some? ==> packaged == Err(AlreadyPackaged))
      && (probed == Ok(None) && !wasm.valid(code) ==> packaged == Err(InvalidWasm))
      && (probed == Ok(None) && wasm.valid(code) && contract.Err? ==> packaged == Err(LaunchContract(contract.error)))
      && (probed == Ok(None) && wasm.valid(code) && contract == Ok(None) ==> packaged == Err(NoLaunchContract))
      && (probed == Ok(None) && wasm.valid(code) && contract.Ok? && contract.value.Some? ==>
            && (codec.audit(bound).Some? ==> packaged == Err(RejectedInputs(Audit(codec.audit(bound).value))))
            && (codec.audit(bound).None? && inputs.targetManifest.None? ==>
                  packaged == Err(RejectedInputs(NoTargetManifest)))
            && (codec.audit(bound).None? && inputs.targetManifest.Some? &&
                |template| + |code| + |bindings| + |codec.encode(bound)| + 232 >= TWO_TO_THE_64 ==>
                  packaged == Err(TooLarge)))
  {
    hide Probe, Image;
  }

  // A packaged image gives back exactly what went into it if and only if the
  // template was not empty and the legacy check does not misfire; otherwise
  // the image is refused. It can never serve as a template itself.
  lemma PackageRoundTrip<R(!new)>(codec: Codec<R>, wasm: Wasm, template: seq<byte>, code: seq<byte>,
                                  bindings: seq<byte>, inputs: Inputs<R>, image: seq<byte>)
    requires Faithful(codec)
    requires Packaged(codec, wasm, template, code, bindings, inputs) == Ok(image)
    ensures var bound := BoundTo(codec, inputs, template);
      var app := Application(code, bindings, codec.encode(bound));
      && (Probe(codec, wasm, image) == Ok(Some(app)) <==> template != [] && !LegacyCollision(codec, app))
      && (Probe(codec, wasm, image) != Ok(Some(app)) ==> Probe(codec, wasm, image).Err?)
      && codec.decode(app.sourceInputs) == Some(bound)
    ensures forall code', bindings', inputs' :: Packaged(codec, wasm, image, code', bindings', inputs').Err?
  {
    hide Probe, Image, LegacyCollision;
    var bound := BoundTo(codec, inputs, template);
    var app := Application(code, bindings, codec.encode(bound));
    var launch := wasm.launchContract(code).value.value;
    if template == [] {
      EmptyLauncherIsRefused(codec, wasm, app, launch);
    } else {
      ImageIsAccepted(codec, wasm, template, app, launch);
    }
  }

  // Packaging accepts an empty template, and the result is refused.
  lemma EmptyTemplateIsUnreadable<R>(codec: Codec<R>, wasm: Wasm, code: seq<byte>, bindings: seq<byte>,
                                     inputs: Inputs<R>, launch: seq<byte>)
    requires wasm.valid(code) && wasm.launchContract(code) == Ok(Some(launch))
    requires ValidateTrusted(codec, BoundTo(codec, inputs, []), []).None?
    requires |code| + |bindings| + |codec.encode(BoundTo(codec, inputs, []))| + DESCRIPTOR_LEN < TWO_TO_THE_64
    ensures var r := Packaged(codec, wasm, [], code, bindings, inputs);
      r.Ok? && Probe(codec, wasm, r.value).Err?
  {
    hide Image, ReadPayload;
    assert Probe(codec, wasm, []) == Ok(None);
    EmptyLauncherIsRefused(codec, wasm, Application(code, bindings, codec.encode(BoundTo(codec, inputs, []))), launch);
  }

  // ---------- loading ----------

  // Read only the tail of the file unless it carries the magic.
  function Load<R>(codec: Codec<R>, wasm: Wasm, image: seq<byte>): Result<Option<(Application, Inputs<R>)>, Error> {
    if |image| < LEGACY_DESCRIPTOR_LEN then Ok(None)
    else
      var tailLen := if |image| < DESCRIPTOR_LEN then |image| else DESCRIPTOR_LEN;
      var descriptor := image[|image| - tailLen..];
      if descriptor[tailLen - LEGACY_DESCRIPTOR_LEN..][..|MAGIC|] == MAGIC then Err(Legacy)
      else if tailLen != DESCRIPTOR_LEN || descriptor[..|MAGIC|] != MAGIC then Ok(None)
      else match Probe(codec, wasm, image)
        case Err(error) => Err(error)
        case Ok(None) => Err(Disappeared)
        case Ok(Some(app)) => match codec.decode(app.sourceInputs)
          case None => Err(UndecodableInputs)
          case Some(inputs) => Ok(Some((app, inputs)))
  }

  // The tail decides as the whole image does: loading is probing and decoding,
  // and the descriptor never disappears in between.
  lemma LoadIsProbe<R>(codec: Codec<R>, wasm: Wasm, image: seq<byte>)
    ensures Load(codec, wasm, image) ==
      match Probe(codec, wasm, image)
      case Err(error) => Err(error)
      case Ok(None) => Ok(None)
      case Ok(Some(app)) => Ok(Some((app, codec.decode(app.sourceInputs).value)))
  {
    hide ReadU32, ReadUsize;
    if |image| >= LEGACY_DESCRIPTOR_LEN {
      var tailLen := if |image| < DESCRIPTOR_LEN then |image| else DESCRIPTOR_LEN;
      var descriptor := image[|image| - tailLen..];
      assert descriptor[tailLen - LEGACY_DESCRIPTOR_LEN..] == image[|image| - LEGACY_DESCRIPTOR_LEN..];
    }
  }
}
