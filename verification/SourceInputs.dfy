// The closed source inputs that both artifact formats embed. Hashing, the JSON
// codec and the compatibility checks that do not concern the artifact formats
// are parameters.

module SourceInputs {
  import opened Prelude
  import opened Bytes

  datatype Inputs<R> = Inputs(
    launcherDigest: Digest,
    optMask: nat,
    targetManifest: Option<string>,
    rest: R)

  datatype Codec<!R> = Codec(
    digest: seq<byte> -> Digest,
    encode: Inputs<R> -> seq<byte>,
    decode: seq<byte> -> Option<Inputs<R>>,
    audit: Inputs<R> -> Option<string>,   // the remaining checks; None when they pass
    releaseMask: nat)

  // Decoding undoes encoding.
  ghost predicate Faithful<R(!new)>(codec: Codec<R>) {
    forall inputs :: codec.decode(codec.encode(inputs)) == Some(inputs)
  }

  // "witchy.portable-wasm.v1"
  const PORTABLE_WASM_DOMAIN: seq<byte> := [
    119, 105, 116, 99, 104, 121, 46, 112, 111, 114, 116, 97, 98, 108, 101, 45, 119, 97, 115, 109, 46, 118, 49]

  datatype Complaint = Incompatible | NoTargetManifest | UnknownProfile | Audit(message: string)

  function Validate<R>(codec: Codec<R>, inputs: Inputs<R>, launcher: seq<byte>): Option<Complaint> {
    if inputs.launcherDigest != codec.digest(launcher) then Some(Incompatible)
    else match codec.audit(inputs)
      case Some(message) => Some(Audit(message))
      case None => None
  }

  function ValidateTrusted<R>(codec: Codec<R>, inputs: Inputs<R>, launcher: seq<byte>): Option<Complaint> {
    match Validate(codec, inputs, launcher)
    case Some(complaint) => Some(complaint)
    case None => if inputs.targetManifest.None? then Some(NoTargetManifest) else None
  }

  function ValidatePortable<R>(codec: Codec<R>, inputs: Inputs<R>): Option<Complaint> {
    match Validate(codec, inputs, PORTABLE_WASM_DOMAIN)
    case Some(complaint) => Some(complaint)
    case None =>
      if inputs.optMask != 0 && inputs.optMask != codec.releaseMask then Some(UnknownProfile) else None
  }

  // Inputs bound to a launcher, or to the portable format.
  function BoundTo<R>(codec: Codec<R>, inputs: Inputs<R>, launcher: seq<byte>): Inputs<R> {
    inputs.(launcherDigest := codec.digest(launcher))
  }
}
