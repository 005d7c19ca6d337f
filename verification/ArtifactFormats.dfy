// The two artifact formats side by side.

module ArtifactFormats {
  import opened Prelude
  import opened Bytes
  import opened SourceInputs
  import TrustedImage
  import PortableWasm

  // Source inputs cannot be transplanted: what an accepted trusted-publisher
  // image embeds is never what an accepted portable file holds, unless the
  // digest confuses the image's own launcher with the portable domain.
  lemma InputsAreNotTransplanted<R>(
      parser: PortableWasm.Parser, codec: Codec<R>, wasm: TrustedImage.Wasm,
      image: seq<byte>, app: TrustedImage.Application)
    returns (launcher: seq<byte>, launch: seq<byte>)
    requires TrustedImage.Probe(codec, wasm, image) == Ok(Some(app))
    ensures image == TrustedImage.Image(codec, launcher, app, launch) && launcher != []
    ensures codec.decode(app.sourceInputs).Some?
    ensures codec.digest(launcher) != codec.digest(PORTABLE_WASM_DOMAIN) ==>
      forall bytes, prefix :: PortableWasm.Probe(parser, codec, bytes)
        != Ok(Some(PortableWasm.Artifact(prefix, codec.decode(app.sourceInputs).value)))
  {
    hide TrustedImage.Probe, PortableWasm.Probe;
    launcher, launch := TrustedImage.AcceptedIsImage(codec, wasm, image, app);
    var inputs := codec.decode(app.sourceInputs).value;
    forall bytes, prefix | PortableWasm.Probe(parser, codec, bytes) == Ok(Some(PortableWasm.Artifact(prefix, inputs)))
      ensures codec.digest(launcher) == codec.digest(PORTABLE_WASM_DOMAIN)
    {
      var payload := PortableWasm.AcceptedIsModuleWithSource(parser, codec, bytes, prefix, inputs);
    }
  }
}
